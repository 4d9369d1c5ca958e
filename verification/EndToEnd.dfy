/** QoS 2 between two clients of the same version (section 4.3.3 of MQTT 3.1.1 and of MQTT 5.0): the outbound half of
    one joined to the inbound half of the other by two FIFO channels that a disconnection empties. An MQTT 3.1.1
    receiver passes a publication on at its PUBREL, an MQTT 5 one at its first PUBLISH. */
module EndToEnd {
  import opened Bytes
  import opened Packets
  import opened Session
  import opened SendOrder
  import opened Recovery
  import opened Sender

  /** The two clients, the packets on their way, and what the receiver has handed to Protocol_processPublication. */
  datatype System = System(run: Run, recv: Client, toR: seq<Wire>, toS: seq<Wire>, delivered: seq<Wire>)

  datatype Step =
    | SenderActs(event: Event, arrives: bool)
    | SenderReceives(arrives: bool)
    | ReceiverReceives(clear: bool, arrives: bool)
    | Disconnect
    | SenderCrash(senderKeys: seq<Key>)
    | SenderCrashInPubcomp(senderKeys: seq<Key>)
    | ReceiverCrash(receiverKeys: seq<Key>)

  function Beginning(v5: bool): System {
    System(Start(v5), Client(v5, [], [], 0, map[]), [], [], [])
  }

  function Disconnected(s: System): System {
    s.(toR := [], toS := [])
  }

  /** A packet sent enters the channel unless the socket refuses it. */
  function Entering(ws: seq<Wire>, arrives: bool): seq<Wire> {
    if arrives then ws else []
  }

  /** The packets a sender's event added to its log. */
  function NewPackets(before: Run, after: Run): seq<Wire> {
    if |after.log| == |before.log| + 1 then [after.log[|before.log|].wire] else []
  }

  /** The handler the sender runs for an acknowledgement. */
  function AckEvent(w: Wire): Option<Event> {
    if !w.Ack? then None
    else if w.kind == PUBACK then Some(Puback(w.id))
    else if w.kind == PUBREC then Some(Pubrec(w.id, false))
    else if w.kind == PUBCOMP then Some(Pubcomp(w.id))
    else None
  }

  /** The handler the receiver runs. */
  function Handle(c: Client, w: Wire, clear: bool): Outcome {
    match w
    case Pub(p, uid) => OnPublish(c, p, uid, clear)
    case Ack(kind, dup, id) => if kind == PUBREL then OnPubrel(c, id, dup, clear) else Outcome(c, [], [], false)
  }

  ghost function AfterSender(s: System, e: Event, arrives: bool): Option<System>
    requires 0 <= s.run.client.last <= MAX_MSG_ID
  {
    var r := Apply(s.run, e);
    if r.None? then None
    else Some(s.(run := r.value, toR := s.toR + Entering(NewPackets(s.run, r.value), arrives)))
  }

  ghost function AfterReceiver(s: System, clear: bool, arrives: bool): System
    requires |s.toR| > 0
  {
    var o := Handle(s.recv, s.toR[0], clear);
    s.(recv := o.client, toR := s.toR[1..], toS := s.toS + Entering(o.sent, arrives),
        delivered := s.delivered + o.delivered)
  }

  /** The receiver restarts from its store; what was on its way to it is lost. */
  ghost function ReceiverBack(s: System, keys: seq<Key>): Option<System> {
    var c := Restart(s.recv.v5, s.recv.store, keys);
    if !Lists(keys, s.recv.store) || c.None? then None else Some(s.(recv := c.value, toR := []))
  }

  /** Every PUBLISH in the store of an MQTT 5 receiver has its record: none was stored without being handled, because
      the socket was not clear. */
  ghost predicate AllListed(c: Client) {
    c.v5 ==> forall id :: StoredFor(c, id).Some? ==> Lookup(c.inb, id).Some?
  }

  /** Of the messages that an MQTT 5 sender would wait for PUBREC again, the receiver has finished none, and no PUBREL
      is on its way. */
  predicate NoneFinished(s: System, out: seq<Message>) {
    s.recv.v5 ==> forall m :: m in out && m.awaiting == AwaitPubcomp ==>
      Lookup(s.recv.inb, m.id).Some? && NoRel(s.toR, m.id)
  }

  function StoredFor(c: Client, id: int): Option<Stored> {
    var k := Key(ReceivedKey, c.v5, id);
    if k in c.store then Some(c.store[k]) else None
  }

  /** One step. An MQTT 5 client does not restart in these runs where the restart would take a publication that is
      still to be passed on for one that has been, or one that has been for one that is not. */
  ghost function Next(s: System, step: Step): (t: Option<System>)
    requires 0 <= s.run.client.last <= MAX_MSG_ID
  {
    match step
    case SenderActs(e, arrives) => if e.Publish? || e.Retry? then AfterSender(s, e, arrives) else None
    case SenderReceives(arrives) =>
      if |s.toS| == 0 || AckEvent(s.toS[0]).None? then None
      else AfterSender(s.(toS := s.toS[1..]), AckEvent(s.toS[0]).value, arrives)
    case ReceiverReceives(clear, arrives) => if |s.toR| == 0 then None else Some(AfterReceiver(s, clear, arrives))
    case Disconnect => Some(Disconnected(s))
    case SenderCrash(keys) =>
      if !NoneFinished(s, s.run.client.out) then None else AfterSender(s.(toS := []), Crash(keys), false)
    case SenderCrashInPubcomp(keys) =>
      if |s.toS| == 0 || !s.toS[0].Ack? || s.toS[0].kind != PUBCOMP then None
      else
        var e := CrashInPubcomp(s.toS[0].id, keys);
        if !NoneFinished(s, LeftInStore(s.run.client, e)) then None else AfterSender(s.(toS := []), e, false)
    case ReceiverCrash(keys) => if !AllListed(s.recv) then None else ReceiverBack(s, keys)
  }

  // ----- the invariant, one message id at a time -----

  predicate IsPublish2(w: Wire, id: int) { w.Pub? && w.publish.qos == 2 && w.publish.id == id }
  predicate IsPubrel(w: Wire, id: int) { w.Ack? && w.kind == PUBREL && w.id == id }
  predicate IsPubrec(w: Wire, id: int) { w.Ack? && w.kind == PUBREC && w.id == id }
  predicate IsPubcomp(w: Wire, id: int) { w.Ack? && w.kind == PUBCOMP && w.id == id }

  predicate Delivered(delivered: seq<Wire>, uid: nat) {
    exists i :: 0 <= i < |delivered| && delivered[i].Pub? && delivered[i].uid == uid
  }

  predicate NoneR(q: seq<Wire>, id: int) { forall i :: 0 <= i < |q| ==> !IsPublish2(q[i], id) }
  predicate NoRel(q: seq<Wire>, id: int) { forall i :: 0 <= i < |q| ==> !IsPubrel(q[i], id) }
  predicate NoRec(q: seq<Wire>, id: int) { forall i :: 0 <= i < |q| ==> !IsPubrec(q[i], id) }
  predicate NoComp(q: seq<Wire>, id: int) { forall i :: 0 <= i < |q| ==> !IsPubcomp(q[i], id) }

  predicate NoRelAfterPublish(q: seq<Wire>, id: int) {
    forall i, j :: 0 <= i < j < |q| && IsPublish2(q[i], id) ==> !IsPubrel(q[j], id)
  }

  predicate NoPublishAfterRel(q: seq<Wire>, id: int) {
    forall i, j :: 0 <= i < j < |q| && IsPubrel(q[i], id) ==> !IsPublish2(q[j], id)
  }

  predicate NothingAfterComp(q: seq<Wire>, id: int) {
    forall i, j :: 0 <= i < j < |q| && IsPubcomp(q[i], id) ==> !IsPubrec(q[j], id) && !IsPubcomp(q[j], id)
  }

  /** Every QoS 2 PUBLISH with this id on its way is the message's. */
  predicate OnlyThis(q: seq<Wire>, m: Message) {
    forall i :: 0 <= i < |q| && IsPublish2(q[i], m.id) ==> q[i] == Pub(ToPublish(m, q[i].publish.dup), m.uid)
  }

  /** The receiver's record, if any, is the message; and if it has one, so does its store. */
  predicate HeldOk(v5: bool, m: Message, held: Option<Message>, stored: Option<Stored>) {
    && (held.Some? ==> held.value == Received(ToPublish(m, false), m.uid) && stored.Some?)
    && (stored.Some? ==> Holds(v5, stored.value, m))
  }

  predicate Waiting(m: Option<Message>) {
    m.Some? && m.value.qos == 2
  }

  /** How the sender's message with one id, the receiver's record of that id, and the packets with that id hang
      together. */
  predicate IdInv(v5: bool, m: Option<Message>, held: Option<Message>, stored: Option<Stored>,
                  toR: seq<Wire>, toS: seq<Wire>, delivered: seq<Wire>, id: int) {
    if !Waiting(m) then
      held.None? && stored.None? && NoneR(toR, id) && NoRec(toS, id) && NoComp(toS, id)
    else
      && OnlyThis(toR, m.value) && HeldOk(v5, m.value, held, stored)
      && if m.value.awaiting == AwaitPubrec then
           && Delivered(delivered, m.value.uid) == (v5 && held.Some?)
           && NoRelAfterPublish(toR, id) && (held.Some? ==> NoRel(toR, id))
           && NoComp(toS, id) && (held.None? ==> NoRec(toS, id))
         else if held.Some? then
           Delivered(delivered, m.value.uid) == v5 && NoPublishAfterRel(toR, id) && NoComp(toS, id)
         else
           Delivered(delivered, m.value.uid) && stored.None? && NoneR(toR, id) && NothingAfterComp(toS, id)
  }

  ghost predicate AllIds(s: System) {
    forall id :: IdInv(s.recv.v5, Lookup(s.run.client.out, id), Lookup(s.recv.inb, id), StoredFor(s.recv, id),
                       s.toR, s.toS, s.delivered, id)
  }

  /** Packets to the receiver are a publication's PUBLISH, or a PUBREL without DUP. */
  predicate ToReceiverOk(q: seq<Wire>, published: seq<Message>) {
    forall i :: 0 <= i < |q| ==>
      match q[i]
      case Pub(p, uid) => uid < |published| && p == ToPublish(published[uid], p.dup)
      case Ack(kind, dup, id) => kind == PUBREL && !dup
  }

  /** Packets to the sender are acknowledgements. */
  predicate ToSenderOk(q: seq<Wire>) {
    forall i :: 0 <= i < |q| ==> AckEvent(q[i]).Some?
  }

  predicate ReceiverOk(c: Client) {
    && c.out == [] && DistinctIds(c.inb)
    && (forall m :: m in c.inb ==> m.qos == 2 && m.awaiting == AwaitPubrel)
    && (forall k :: k in c.store ==> k.kind == ReceivedKey && k.v5 == c.v5)
  }

  /** What was delivered is what was published, and no QoS 2 publication was delivered twice. */
  predicate DeliveredOk(delivered: seq<Wire>, published: seq<Message>) {
    && (forall i :: 0 <= i < |delivered| ==>
          delivered[i].Pub? && delivered[i].uid < |published|
          && delivered[i].publish == ToPublish(published[delivered[i].uid], delivered[i].publish.dup))
    && (forall i, j :: 0 <= i < j < |delivered| && delivered[i].publish.qos == 2 ==>
      delivered[i].uid != delivered[j].uid)
  }

  /** Every QoS 2 publication is still in the session or has been delivered. */
  predicate NoneLost(out: seq<Message>, published: seq<Message>, delivered: seq<Wire>) {
    forall u :: 0 <= u < |published| && published[u].qos == 2 ==>
      Delivered(delivered, u) || exists m :: m in out && m.uid == u
  }

  ghost predicate SysInv(s: System) {
    && s.recv.v5 == s.run.client.v5 && Inv(s.run) && ReceiverOk(s.recv) && InPersisted(s.recv.v5, s.recv.store)
    && ToReceiverOk(s.toR, s.run.published) && ToSenderOk(s.toS)
    && DeliveredOk(s.delivered, s.run.published)
    && NoneLost(s.run.client.out, s.run.published, s.delivered)
    && AllIds(s)
  }

  // ----- changes that leave an id's part of the invariant alone -----

  /** The packet says nothing about QoS 2 and this id. */
  predicate Irrelevant(w: Wire, id: int) {
    !IsPublish2(w, id) && !IsPubrel(w, id) && !IsPubrec(w, id) && !IsPubcomp(w, id)
  }

  lemma PopToR(v5: bool, m: Option<Message>, held: Option<Message>, stored: Option<Stored>,
               toR: seq<Wire>, toS: seq<Wire>, delivered: seq<Wire>, id: int)
    requires |toR| > 0 && IdInv(v5, m, held, stored, toR, toS, delivered, id)
    ensures IdInv(v5, m, held, stored, toR[1..], toS, delivered, id)
  {
    assert forall i :: 0 <= i < |toR| - 1 ==> toR[1..][i] == toR[i + 1];
  }

  lemma PopToS(v5: bool, m: Option<Message>, held: Option<Message>, stored: Option<Stored>,
               toR: seq<Wire>, toS: seq<Wire>, delivered: seq<Wire>, id: int)
    requires |toS| > 0 && IdInv(v5, m, held, stored, toR, toS, delivered, id)
    ensures IdInv(v5, m, held, stored, toR, toS[1..], delivered, id)
  {
    assert forall i :: 0 <= i < |toS| - 1 ==> toS[1..][i] == toS[i + 1];
  }

  lemma PushIrrelevant(v5: bool, m: Option<Message>, held: Option<Message>, stored: Option<Stored>,
                       toR: seq<Wire>, toS: seq<Wire>, delivered: seq<Wire>, id: int, w: Wire)
    requires IdInv(v5, m, held, stored, toR, toS, delivered, id) && Irrelevant(w, id)
    requires m.Some? ==> m.value.id == id
    ensures IdInv(v5, m, held, stored, toR + [w], toS, delivered, id)
    ensures IdInv(v5, m, held, stored, toR, toS + [w], delivered, id)
  {
  }

  lemma DeliverOther(v5: bool, m: Option<Message>, held: Option<Message>, stored: Option<Stored>,
                     toR: seq<Wire>, toS: seq<Wire>, delivered: seq<Wire>, id: int, w: Wire)
    requires IdInv(v5, m, held, stored, toR, toS, delivered, id)
    requires Waiting(m) && w.Pub? ==> w.uid != m.value.uid
    ensures IdInv(v5, m, held, stored, toR, toS, delivered + [w], id)
  {
    if Waiting(m) {
      DeliveredAppend(delivered, w, m.value.uid);
    }
  }

  lemma DeliveredAppend(delivered: seq<Wire>, w: Wire, uid: nat)
    ensures Delivered(delivered + [w], uid) <==> Delivered(delivered, uid) || (w.Pub? && w.uid == uid)
  {
    var d := delivered + [w];
    if Delivered(delivered, uid) {
      var i :| 0 <= i < |delivered| && delivered[i].Pub? && delivered[i].uid == uid;
      assert d[i] == delivered[i];
    }
    assert d[|delivered|] == w;
  }

  /** An empty channel is as good as any. */
  lemma EmptyChannels(v5: bool, m: Option<Message>, held: Option<Message>, stored: Option<Stored>,
                      toR: seq<Wire>, toS: seq<Wire>, delivered: seq<Wire>, id: int)
    requires IdInv(v5, m, held, stored, toR, toS, delivered, id)
    ensures IdInv(v5, m, held, stored, toR, [], delivered, id)
    ensures IdInv(v5, m, held, stored, [], toS, delivered, id)
    ensures IdInv(v5, m, held, stored, [], [], delivered, id)
  {
  }

  // ----- changes to an id's part of the invariant -----

  lemma PublishId(v5: bool, m: Message, held: Option<Message>, stored: Option<Stored>,
                  toR: seq<Wire>, toS: seq<Wire>, delivered: seq<Wire>, w: Wire)
    requires IdInv(v5, None, held, stored, toR, toS, delivered, m.id)
    requires m.awaiting == AwaitPubrec && !Delivered(delivered, m.uid) && w == Pub(ToPublish(m, false), m.uid)
    ensures IdInv(v5, Some(m), held, stored, toR, toS, delivered, m.id)
    ensures IdInv(v5, Some(m), held, stored, toR + [w], toS, delivered, m.id)
  {
  }

  lemma RetryId(v5: bool, m: Message, held: Option<Message>, stored: Option<Stored>,
                toR: seq<Wire>, toS: seq<Wire>, delivered: seq<Wire>, w: Wire)
    requires IdInv(v5, Some(m), held, stored, toR, toS, delivered, m.id)
    requires w == (if m.awaiting == AwaitPubcomp then Ack(PUBREL, false, m.id) else Pub(ToPublish(m, true), m.uid))
    requires m.qos == 2 ==> m.awaiting == AwaitPubcomp || m.awaiting == AwaitPubrec
    requires m.qos != 2 ==> m.awaiting == Unset
    ensures IdInv(v5, Some(m), held, stored, toR + [w], toS, delivered, m.id)
  {
  }

  lemma PubrecId(v5: bool, m: Message, held: Option<Message>, stored: Option<Stored>,
                 toR: seq<Wire>, toS: seq<Wire>, delivered: seq<Wire>)
    requires IdInv(v5, Some(m), held, stored, toR, toS, delivered, m.id)
    requires m.qos == 2 && m.awaiting == AwaitPubrec && |toS| > 0 && IsPubrec(toS[0], m.id)
    ensures var n := Some(m.(awaiting := AwaitPubcomp));
      && IdInv(v5, n, held, stored, toR, toS[1..], delivered, m.id)
      && IdInv(v5, n, held, stored, toR + [Ack(PUBREL, false, m.id)], toS[1..], delivered, m.id)
  {
    hide RestorePacket;
    assert held.Some?;
    var n := m.(awaiting := AwaitPubcomp);
    assert ToPublish(n, true) == ToPublish(m, true) && ToPublish(n, false) == ToPublish(m, false);
    PopToS(v5, Some(m), held, stored, toR, toS, delivered, m.id);
  }

  lemma PubcompId(v5: bool, m: Message, held: Option<Message>, stored: Option<Stored>,
                  toR: seq<Wire>, toS: seq<Wire>, delivered: seq<Wire>)
    requires IdInv(v5, Some(m), held, stored, toR, toS, delivered, m.id)
    requires m.qos == 2 && |toS| > 0 && IsPubcomp(toS[0], m.id)
    ensures Delivered(delivered, m.uid) && m.awaiting != AwaitPubrec
    ensures IdInv(v5, None, held, stored, toR, toS[1..], delivered, m.id)
  {
    assert forall i :: 0 <= i < |toS| - 1 ==> toS[1..][i] == toS[i + 1];
  }

  lemma PubackId(v5: bool, m: Message, held: Option<Message>, stored: Option<Stored>,
                 toR: seq<Wire>, toS: seq<Wire>, delivered: seq<Wire>)
    requires IdInv(v5, Some(m), held, stored, toR, toS, delivered, m.id) && m.qos != 2
    ensures IdInv(v5, None, held, stored, toR, toS, delivered, m.id)
  {
  }

  /** The receiver's store takes the PUBLISH at the front of the channel. */
  lemma StorePublishId(v5: bool, m: Option<Message>, held: Option<Message>, stored: Option<Stored>,
                       toR: seq<Wire>, toS: seq<Wire>, delivered: seq<Wire>, id: int, s: Stored)
    requires IdInv(v5, m, held, stored, toR, toS, delivered, id)
    requires m.Some? ==> m.value.id == id && MessageOk(v5, m.value)
    requires |toR| > 0 && IsPublish2(toR[0], id)
    requires s == Stored(Record(v5, toR[0].publish), toR[0].uid)
    ensures Waiting(m) && toR[0] == Pub(ToPublish(m.value, toR[0].publish.dup), m.value.uid)
    ensures Holds(v5, s, m.value) && (m.value.awaiting == AwaitPubrec ==> NoRel(toR[1..], id))
    ensures IdInv(v5, m, held, Some(s), toR[1..], toS, delivered, id)
  {
    var w := toR[0];
    assert w == Pub(ToPublish(m.value, w.publish.dup), m.value.uid);
    RecordHolds(v5, m.value, w.publish.dup);
    hide RestorePacket, MessageOk, Record, Holds;
    PopToR(v5, m, held, stored, toR, toS, delivered, id);
  }

  /** Then, if it can answer, so does its list; an MQTT 5 receiver passes the publication on if it was not there. */
  lemma ReceivePublishId(v5: bool, m: Message, held: Option<Message>, s: Stored,
                         toR: seq<Wire>, toS: seq<Wire>, delivered: seq<Wire>, h: Message, w: Wire)
    requires IdInv(v5, Some(m), held, Some(s), toR, toS, delivered, m.id) && m.qos == 2
    requires h == Received(ToPublish(m, false), m.uid) && w.Pub? && w.uid == m.uid
    requires m.awaiting == AwaitPubrec ==> NoRel(toR, m.id)
    ensures v5 && held.None? ==> !Delivered(delivered, m.uid)
    ensures var d := if v5 && held.None? then delivered + [w] else delivered;
      && IdInv(v5, Some(m), Some(h), Some(s), toR, toS, d, m.id)
      && IdInv(v5, Some(m), Some(h), Some(s), toR, toS + [Ack(PUBREC, false, m.id)], d, m.id)
  {
    hide RestorePacket, Holds;
    DeliveredAppend(delivered, w, m.uid);
    hide Delivered;
  }

  lemma ReceivePubrelId(v5: bool, m: Option<Message>, held: Message, stored: Option<Stored>,
                        toR: seq<Wire>, toS: seq<Wire>, delivered: seq<Wire>, id: int)
    requires IdInv(v5, m, Some(held), stored, toR, toS, delivered, id) && (m.Some? ==> m.value.id == id)
    requires |toR| > 0 && IsPubrel(toR[0], id)
    ensures Waiting(m) && held.uid == m.value.uid && ToPublish(held, false) == ToPublish(m.value, false)
    ensures m.value.awaiting != AwaitPubrec && stored.Some?
    ensures Delivered(delivered, m.value.uid) == v5
    ensures var d := delivered + (if v5 then [] else [Pub(ToPublish(held, false), held.uid)]);
      && IdInv(v5, m, None, None, toR[1..], toS, d, id)
      && IdInv(v5, m, None, None, toR[1..], toS + [Ack(PUBCOMP, false, id)], d, id)
  {
    assert forall i :: 0 <= i < |toR| - 1 ==> toR[1..][i] == toR[i + 1];
    DeliveredAppend(delivered, Pub(ToPublish(held, false), held.uid), held.uid);
    assert delivered + [] == delivered;
    hide Delivered;
  }

  /** A restart of the receiver takes its records back from its store. */
  lemma ReceiverRestartId(v5: bool, m: Option<Message>, held: Option<Message>, stored: Option<Stored>, toR: seq<Wire>,
                          toS: seq<Wire>, delivered: seq<Wire>, id: int)
    requires IdInv(v5, m, held, stored, toR, toS, delivered, id)
    requires v5 && stored.Some? ==> held.Some?
    ensures IdInv(v5, m, if stored.Some? then Some(ReceivedMessage(v5, stored.value)) else None, stored, [], toS,
        delivered, id)
  {
    hide RestorePacket;
  }

  // ----- every step keeps the invariant -----

  lemma OutMember(r: Run, id: int)
    requires Inv(r)
    ensures var m := Lookup(r.client.out, id);
      m.Some? ==>
        m.value in r.client.out && m.value.id == id && MessageOk(r.client.v5, m.value) && m.value.uid < |r.published|
                  && m.value == r.published[m.value.uid].(awaiting := m.value.awaiting)
  {
    hide InPersisted, NoOrphans, LogOk, LogDup, LogOrdered, LogMatches, MessageOk;
    MembersPersisted(r.client.v5, r.forgot, r.client.out, r.client.store);
  }

  lemma NotYetDelivered(s: System)
    requires DeliveredOk(s.delivered, s.run.published)
    ensures !Delivered(s.delivered, |s.run.published|)
  {
  }

  lemma PublishIds(s: System, m: Message, t: System, arrives: bool)
    requires AllIds(s) && t.run.client.out == s.run.client.out + [m] && Lookup(s.run.client.out, m.id).None?
    requires m.awaiting == (if m.qos == 2 then AwaitPubrec else Unset) && !Delivered(s.delivered, m.uid)
    requires t == s.(run := t.run, toR := s.toR + Entering([Pub(ToPublish(m, false), m.uid)], arrives))
    ensures AllIds(t)
  {
    var w := Pub(ToPublish(m, false), m.uid);
    assert s.toR + [] == s.toR;
    forall id
      ensures IdInv(t.recv.v5, Lookup(t.run.client.out, id), Lookup(t.recv.inb, id), StoredFor(t.recv, id), t.toR,
          t.toS, t.delivered, id)
    {
      LookupAppend(s.run.client.out, m, id);
      var held, stored := Lookup(s.recv.inb, id), StoredFor(s.recv, id);
      assert IdInv(s.recv.v5, Lookup(s.run.client.out, id), held, stored, s.toR, s.toS, s.delivered, id);
      if id == m.id && m.qos == 2 {
        PublishId(s.recv.v5, m, held, stored, s.toR, s.toS, s.delivered, w);
      } else if id == m.id {
        assert IdInv(s.recv.v5, Some(m), held, stored, s.toR, s.toS, s.delivered, id);
        PushIrrelevant(s.recv.v5, Some(m), held, stored, s.toR, s.toS, s.delivered, id, w);
      } else {
        PushIrrelevant(s.recv.v5, Lookup(s.run.client.out, id), held, stored, s.toR, s.toS, s.delivered, id, w);
      }
    }
  }

  lemma PublishStep(s: System, e: Event, arrives: bool)
    requires SysInv(s) && e.Publish? && AfterSender(s, e, arrives).Some?
    ensures SysInv(AfterSender(s, e, arrives).value)
  {
    hide AllIds, Inv, MessageOk, AssignMsgId, ReceiverOk, InPersisted, Record;
    assert 0 <= s.run.client.last <= MAX_MSG_ID by { LastInRange(s.run); }
    ApplyKeepsInv(s.run, e);
    var id := AssignMsgId(s.run.client.out, s.run.client.last);
    AssignsFirstFree(s.run.client.out, s.run.client.last);
    var m := NewMessage(s.run, e, id);
    var t := AfterSender(s, e, arrives).value;
    assert t.run == AfterPublish(s.run, m);
    assert NewPackets(s.run, t.run) == [Pub(ToPublish(m, false), m.uid)];
    NotYetDelivered(s);
    QosOfOk(s.run.client.v5, m);
    PublishIds(s, m, t, arrives);
    assert m in t.run.client.out;
    assert forall x :: x in s.run.client.out ==> x in t.run.client.out;
  }

  lemma QosOfOk(v5: bool, m: Message)
    requires MessageOk(v5, m)
    ensures m.qos == 1 || m.qos == 2
    ensures m.qos == 1 ==> m.awaiting == Unset
    ensures m.qos == 2 ==> m.awaiting == AwaitPubrec || m.awaiting == AwaitPubcomp
  {
  }

  lemma RetryIds(s: System, m: Message, t: System, w: Wire, arrives: bool)
    requires AllIds(s) && t.run.client.out == s.run.client.out && Lookup(s.run.client.out, m.id) == Some(m)
    requires MessageOk(s.run.client.v5, m)
    requires w == (if m.awaiting == AwaitPubcomp then Ack(PUBREL, false, m.id) else Pub(ToPublish(m, true), m.uid))
    requires t == s.(run := t.run, toR := s.toR + Entering([w], arrives))
    ensures AllIds(t)
  {
    hide MessageOk;
    QosOfOk(s.run.client.v5, m);
    assert s.toR + [] == s.toR;
    forall id
      ensures IdInv(t.recv.v5, Lookup(t.run.client.out, id), Lookup(t.recv.inb, id), StoredFor(t.recv, id), t.toR,
          t.toS, t.delivered, id)
    {
      var x, held, stored := Lookup(s.run.client.out, id), Lookup(s.recv.inb, id), StoredFor(s.recv, id);
      assert IdInv(s.recv.v5, x, held, stored, s.toR, s.toS, s.delivered, id);
      if id == m.id {
        RetryId(s.recv.v5, m, held, stored, s.toR, s.toS, s.delivered, w);
      } else {
        PushIrrelevant(s.recv.v5, x, held, stored, s.toR, s.toS, s.delivered, id, w);
      }
    }
  }

  lemma RetryStep(s: System, e: Event, arrives: bool)
    requires SysInv(s) && e.Retry? && AfterSender(s, e, arrives).Some?
    ensures SysInv(AfterSender(s, e, arrives).value)
  {
    hide AllIds, Inv, MessageOk, ReceiverOk, InPersisted, Session.Retry;
    assert 0 <= s.run.client.last <= MAX_MSG_ID by { LastInRange(s.run); }
    ApplyKeepsInv(s.run, e);
    var m := s.run.client.out[e.index];
    MemberLookup(s.run, m);
    RetrySends(s.run.client, m);
    var t := AfterSender(s, e, arrives).value;
    var w := Session.Retry(s.run.client, m).1[0];
    assert t.run.log == s.run.log + [Sent(m.uid, w)];
    assert NewPackets(s.run, t.run) == [w];
    RetryIds(s, m, t, w, arrives);
  }

  lemma MemberLookup(r: Run, m: Message)
    requires Inv(r) && m in r.client.out
    ensures Lookup(r.client.out, m.id) == Some(m) && MessageOk(r.client.v5, m) && m.uid < |r.published|
            && m == r.published[m.uid].(awaiting := m.awaiting)
  {
    hide InPersisted, NoOrphans, LogOk, LogDup, LogOrdered, LogMatches, MessageOk;
    MembersPersisted(r.client.v5, r.forgot, r.client.out, r.client.store);
  }

  /** The message with id leaves the sender's list; nothing else changes but that the front acknowledgement is taken. */
  lemma RemovedIds(s: System, m: Message, t: System)
    requires AllIds(s) && |s.toS| > 0 && Lookup(s.run.client.out, m.id) == Some(m)
    requires m.qos != 2 || IsPubcomp(s.toS[0], m.id)
    requires forall id :: Lookup(t.run.client.out, id) == if id == m.id then None else Lookup(s.run.client.out, id)
    requires t == s.(run := t.run, toS := s.toS[1..])
    ensures AllIds(t) && (m.qos == 2 ==> Delivered(s.delivered, m.uid))
  {
    hide IdInv;
    forall id
      ensures IdInv(t.recv.v5, Lookup(t.run.client.out, id), Lookup(t.recv.inb, id), StoredFor(t.recv, id), t.toR,
          t.toS, t.delivered, id)
      ensures id == m.id && m.qos == 2 ==> Delivered(s.delivered, m.uid)
    {
      var x, held, stored := Lookup(s.run.client.out, id), Lookup(s.recv.inb, id), StoredFor(s.recv, id);
      assert IdInv(s.recv.v5, x, held, stored, s.toR, s.toS, s.delivered, id);
      if id == m.id && m.qos == 2 {
        PubcompId(s.recv.v5, m, held, stored, s.toR, s.toS, s.delivered);
      } else {
        PopToS(s.recv.v5, x, held, stored, s.toR, s.toS, s.delivered, id);
        if id == m.id {
          PubackId(s.recv.v5, m, held, stored, s.toR, s.toS[1..], s.delivered);
        }
      }
    }
  }

  /** Only the front acknowledgement is taken. */
  lemma PoppedIds(s: System, t: System)
    requires AllIds(s) && |s.toS| > 0 && t.run.client.out == s.run.client.out
    requires t == s.(run := t.run, toS := s.toS[1..])
    ensures AllIds(t)
  {
    hide IdInv;
    forall id
      ensures IdInv(t.recv.v5, Lookup(t.run.client.out, id), Lookup(t.recv.inb, id), StoredFor(t.recv, id), t.toR,
          t.toS, t.delivered, id)
    {
      PopToS(s.recv.v5, Lookup(s.run.client.out, id), Lookup(s.recv.inb, id), StoredFor(s.recv, id), s.toR, s.toS,
          s.delivered, id);
    }
  }

  lemma NoneLostAfterRemoval(out: seq<Message>, m: Message, out': seq<Message>, published: seq<Message>,
      delivered: seq<Wire>)
    requires NoneLost(out, published, delivered)
    requires forall x :: x in out && x != m ==> x in out'
    requires m.qos == 2 ==> Delivered(delivered, m.uid)
    requires m.uid < |published| && published[m.uid].qos == m.qos
    ensures NoneLost(out', published, delivered)
  {
    hide Delivered;
    forall u | 0 <= u < |published| && published[u].qos == 2 && !Delivered(delivered, u)
      ensures exists x :: x in out' && x.uid == u
    {
      var x :| x in out && x.uid == u;
      assert x in out';
    }
  }

  /** The sender completes the i-th message on the front acknowledgement. */
  lemma CompleteStep(s: System, i: int, t: System)
    requires SysInv(s) && |s.toS| > 0 && 0 <= i < |s.run.client.out|
    requires s.run.client.out[i].qos != 2 || IsPubcomp(s.toS[0], s.run.client.out[i].id)
    requires t == s.(run := s.run.(client := Complete(s.run.client, i)), toS := s.toS[1..])
    ensures SysInv(t)
  {
    hide AllIds, Inv, ReceiverOk, InPersisted, MessageOk, NoneLost, DeliveredOk, ToReceiverOk, RemoveAt;
    var out := s.run.client.out;
    var m := out[i];
    MemberLookup(s.run, m);
    assert DistinctIds(out) by { InvDistinct(s.run); }
    CompletedOut(s.run.client, i);
    forall id
      ensures Lookup(t.run.client.out, id) == if id == m.id then None else Lookup(out, id)
    {
      LookupRemove(out, i, id);
    }
    RemovedIds(s, m, t);
    CompleteKeepsInv(s.run, i);
    OthersStay(out, i);
    NoneLostAfterRemoval(out, m, t.run.client.out, s.run.published, s.delivered);
  }

  lemma OthersStay(out: seq<Message>, i: int)
    requires 0 <= i < |out|
    ensures forall x :: x in out && x != out[i] ==> x in RemoveAt(out, i)
  {
    forall x | x in out && x != out[i]
      ensures x in RemoveAt(out, i)
    {
      var j :| 0 <= j < |out| && out[j] == x;
      assert RemoveAt(out, i)[if j < i then j else j - 1] == x;
    }
  }

  lemma InvDistinct(r: Run)
    requires Inv(r)
    ensures DistinctIds(r.client.out)
  {
  }

  lemma PubrecIds(s: System, i: int, t: System, arrives: bool)
    requires AllIds(s) && |s.toS| > 0 && 0 <= i < |s.run.client.out| && DistinctIds(s.run.client.out)
    requires s.run.client.out[i].qos == 2 && s.run.client.out[i].awaiting == AwaitPubrec
    requires IsPubrec(s.toS[0], s.run.client.out[i].id)
    requires t.run.client.out == s.run.client.out[i := s.run.client.out[i].(awaiting := AwaitPubcomp)]
    requires t == s.(run := t.run, toS := s.toS[1..],
                     toR := s.toR + Entering([Ack(PUBREL, false, s.run.client.out[i].id)], arrives))
    ensures AllIds(t)
  {
    hide IdInv;
    var m := s.run.client.out[i];
    var w := Ack(PUBREL, false, m.id);
    assert s.toR + [] == s.toR;
    LookupUnique(s.run.client.out, i);
    forall id
      ensures IdInv(t.recv.v5, Lookup(t.run.client.out, id), Lookup(t.recv.inb, id), StoredFor(t.recv, id), t.toR,
          t.toS, t.delivered, id)
    {
      LookupUpdate(s.run.client.out, i, m.(awaiting := AwaitPubcomp), id);
      var x, held, stored := Lookup(s.run.client.out, id), Lookup(s.recv.inb, id), StoredFor(s.recv, id);
      assert IdInv(s.recv.v5, x, held, stored, s.toR, s.toS, s.delivered, id);
      if id == m.id {
        PubrecId(s.recv.v5, m, held, stored, s.toR, s.toS, s.delivered);
      } else {
        PopToS(s.recv.v5, x, held, stored, s.toR, s.toS, s.delivered, id);
        PushIrrelevant(s.recv.v5, x, held, stored, s.toR, s.toS[1..], s.delivered, id, w);
      }
    }
  }

  lemma NoneLostAfterUpdate(out: seq<Message>, i: int, published: seq<Message>, delivered: seq<Wire>)
    requires NoneLost(out, published, delivered) && 0 <= i < |out|
    ensures NoneLost(out[i := out[i].(awaiting := AwaitPubcomp)], published, delivered)
  {
    hide Delivered;
    var out' := out[i := out[i].(awaiting := AwaitPubcomp)];
    forall u | 0 <= u < |published| && published[u].qos == 2 && !Delivered(delivered, u)
      ensures exists x :: x in out' && x.uid == u
    {
      var x :| x in out && x.uid == u;
      var j :| 0 <= j < |out| && out[j] == x;
      assert out'[j] in out' && out'[j].uid == u;
    }
  }

  lemma PubrecStep(s: System, arrives: bool)
    requires SysInv(s) && |s.toS| > 0 && s.toS[0].Ack? && s.toS[0].kind == PUBREC
    ensures 0 <= s.run.client.last <= MAX_MSG_ID
    ensures SysInv(AfterSender(s.(toS := s.toS[1..]), Event.Pubrec(s.toS[0].id, false), arrives).value)
  {
    hide AllIds, Inv, ReceiverOk, InPersisted, RelRecord;
    LastInRange(s.run);
    var id := s.toS[0].id;
    var e := Event.Pubrec(id, false);
    ApplyKeepsInv(s.run, e);
    var t := AfterSender(s.(toS := s.toS[1..]), e, arrives).value;
    var out := s.run.client.out;
    var i := IndexOf(out, id);
    if i >= 0 && out[i].qos == 2 && out[i].awaiting == AwaitPubrec {
      var w := Ack(PUBREL, false, id);
      assert t.run.log == s.run.log + [Sent(out[i].uid, w)];
      assert NewPackets(s.run, t.run) == [w];
      InvDistinct(s.run);
      PubrecIds(s, i, t, arrives);
      NoneLostAfterUpdate(out, i, s.run.published, s.delivered);
    } else {
      assert s.run.log + [] == s.run.log && s.toR + [] == s.toR;
      PoppedIds(s, t);
    }
  }

  lemma AckStep(s: System, arrives: bool)
    requires SysInv(s) && Next(s, SenderReceives(arrives)).Some?
    ensures SysInv(Next(s, SenderReceives(arrives)).value)
  {
    hide AllIds, Inv, ReceiverOk, InPersisted, RelRecord, Complete;
    LastInRange(s.run);
    var w := s.toS[0];
    var t := Next(s, SenderReceives(arrives)).value;
    if w.kind == PUBREC {
      PubrecStep(s, arrives);
    } else {
      var out := s.run.client.out;
      var i := IndexOf(out, w.id);
      assert s.toR + [] == s.toR;
      if i >= 0 && ((w.kind == PUBACK && out[i].qos == 1)
                    || (w.kind == PUBCOMP && out[i].qos == 2 && out[i].awaiting == AwaitPubcomp)) {
        CompleteStep(s, i, t);
      } else {
        PoppedIds(s, t);
      }
    }
  }

  // ----- the receiver's steps -----

  lemma ReceiverIdsPopped(s: System, t: System, ws: seq<Wire>)
    requires AllIds(s) && |s.toR| > 0 && |ws| <= 1 && (forall w :: w in ws ==> forall id :: Irrelevant(w, id))
    requires t.recv.v5 == s.recv.v5 && t.recv.inb == s.recv.inb
    requires forall id :: StoredFor(t.recv, id) == StoredFor(s.recv, id)
    requires t == s.(recv := t.recv, toR := s.toR[1..], toS := s.toS + ws)
    ensures AllIds(t)
  {
    hide IdInv, Irrelevant;
    forall id
      ensures IdInv(t.recv.v5, Lookup(t.run.client.out, id), Lookup(t.recv.inb, id), StoredFor(t.recv, id), t.toR,
          t.toS, t.delivered, id)
    {
      var x, held, stored := Lookup(s.run.client.out, id), Lookup(s.recv.inb, id), StoredFor(s.recv, id);
      PopToR(s.recv.v5, x, held, stored, s.toR, s.toS, s.delivered, id);
      if |ws| == 1 {
        assert ws == [ws[0]] && ws[0] in ws;
        PushIrrelevant(s.recv.v5, x, held, stored, s.toR[1..], s.toS, s.delivered, id, ws[0]);
      } else {
        assert s.toS + ws == s.toS;
      }
    }
  }

  lemma DeliverIds(s: System, w: Wire)
    requires AllIds(s) && w.Pub?
    requires forall m :: m in s.run.client.out && m.qos == 2 ==> m.uid != w.uid
    ensures AllIds(s.(delivered := s.delivered + [w]))
  {
    hide IdInv;
    var t := s.(delivered := s.delivered + [w]);
    forall id
      ensures IdInv(t.recv.v5, Lookup(t.run.client.out, id), Lookup(t.recv.inb, id), StoredFor(t.recv, id), t.toR,
          t.toS, t.delivered, id)
    {
      DeliverOther(s.recv.v5, Lookup(s.run.client.out, id), Lookup(s.recv.inb, id), StoredFor(s.recv, id), s.toR,
          s.toS, s.delivered, id, w);
    }
  }

  lemma NoneLostAfterDelivery(out: seq<Message>, published: seq<Message>, delivered: seq<Wire>, w: Wire)
    requires NoneLost(out, published, delivered)
    ensures NoneLost(out, published, delivered + [w])
  {
    hide Delivered;
    forall u | 0 <= u < |published| && published[u].qos == 2 && !Delivered(delivered + [w], u)
      ensures exists m :: m in out && m.uid == u
    {
      DeliveredAppend(delivered, w, u);
    }
  }

  lemma DeliveredOkAfter(delivered: seq<Wire>, published: seq<Message>, w: Wire)
    requires DeliveredOk(delivered, published) && w.Pub? && w.uid < |published|
    requires w.publish == ToPublish(published[w.uid], w.publish.dup)
    requires w.publish.qos == 2 ==> !Delivered(delivered, w.uid)
    ensures DeliveredOk(delivered + [w], published)
  {
    forall i | 0 <= i < |delivered| && delivered[i].publish.qos == 2
      ensures delivered[i].uid != w.uid
    {
    }
  }

  /** A PUBLISH of QoS 0 or 1: delivered at once, and acknowledged if QoS 1 and the socket is clear. */
  lemma ReceiveQos1Step(s: System, clear: bool, arrives: bool)
    requires SysInv(s) && |s.toR| > 0 && s.toR[0].Pub? && s.toR[0].publish.qos != 2
    ensures SysInv(AfterReceiver(s, clear, arrives))
  {
    hide AllIds, Inv, ReceiverOk, InPersisted, NoneLost, DeliveredOk;
    var w := s.toR[0];
    var o := Handle(s.recv, w, clear);
    var t := AfterReceiver(s, clear, arrives);
    assert o.client == s.recv;
    ReceiverIdsPopped(s, t.(delivered := s.delivered), Entering(o.sent, arrives));
    if |o.delivered| > 0 {
      assert o.delivered == [w];
      forall m | m in s.run.client.out && m.qos == 2
        ensures m.uid != w.uid
      {
        MemberLookup(s.run, m);
      }
      DeliverIds(t.(delivered := s.delivered), w);
      NoneLostAfterDelivery(s.run.client.out, s.run.published, s.delivered, w);
      DeliveredOkAfter(s.delivered, s.run.published, w);
    } else {
      assert s.delivered + [] == s.delivered;
    }
  }

  /** A QoS 2 PUBLISH: stored and, if the socket is clear, listed and answered with PUBREC. */
  lemma ReceivePublishIds(s: System, p: Publish, uid: nat, t: System, clear: bool, ws: seq<Wire>)
    requires AllIds(s) && Inv(s.run) && s.recv.v5 == s.run.client.v5 == t.recv.v5
    requires |s.toR| > 0 && s.toR[0] == Pub(p, uid) && p.qos == 2
    requires forall id ::
      StoredFor(t.recv, id) == if id == p.id then Some(Stored(Record(s.recv.v5, p), uid)) else StoredFor(s.recv, id)
    requires forall id ::
      Lookup(t.recv.inb, id) == if clear && id == p.id then Some(Received(p, uid)) else Lookup(s.recv.inb, id)
    requires ws == [] || (clear && ws == [Ack(PUBREC, false, p.id)])
    requires t == s.(recv := t.recv, toR := s.toR[1..], toS := s.toS + ws,
        delivered := s.delivered + PassedOn(s.recv, p, uid, clear))
    ensures AllIds(t) && (PassedOn(s.recv, p, uid, clear) != [] ==> !Delivered(s.delivered, uid))
  {
    hide IdInv, Record, Inv, MessageOk, Holds;
    var x0 := Lookup(s.run.client.out, p.id);
    OutMember(s.run, p.id);
    var r := Stored(Record(s.recv.v5, p), uid);
    StorePublishId(s.recv.v5, x0, Lookup(s.recv.inb, p.id), StoredFor(s.recv, p.id), s.toR, s.toS,
        s.delivered, p.id, r);
    forall id
      ensures IdInv(t.recv.v5, Lookup(t.run.client.out, id), Lookup(t.recv.inb, id), StoredFor(t.recv, id), t.toR,
          t.toS, t.delivered, id)
      ensures id == p.id && PassedOn(s.recv, p, uid, clear) != [] ==> !Delivered(s.delivered, uid)
    {
      var x, held, stored := Lookup(s.run.client.out, id), Lookup(s.recv.inb, id), StoredFor(s.recv, id);
      assert s.toS + [] == s.toS && s.delivered + [] == s.delivered;
      if id == p.id {
        ReceivePublishId(s.recv.v5, x.value, held, r, s.toR[1..], s.toS, s.delivered, Received(p, uid), Pub(p, uid));
      } else {
        OutMember(s.run, id);
        UidsDiffer(s.run, x, x0.value);
        PopToR(s.recv.v5, x, held, stored, s.toR, s.toS, s.delivered, id);
        DeliverOther(s.recv.v5, x, held, stored, s.toR[1..], s.toS, s.delivered, id, Pub(p, uid));
        PushIrrelevant(s.recv.v5, x, held, stored, s.toR[1..], s.toS, t.delivered, id, Ack(PUBREC, false, p.id));
      }
    }
  }

  /** What a receiver passes on when it handles a QoS 2 PUBLISH. */
  function PassedOn(c: Client, p: Publish, uid: nat, clear: bool): seq<Wire> {
    if c.v5 && clear && Lookup(c.inb, p.id).None? then [Pub(p, uid)] else []
  }

  lemma ListAfterPublish(inb: seq<Message>, m: Message, id: int)
    requires DistinctIds(inb)
    ensures var i := IndexOf(inb, m.id);
      var inb' := if i < 0 then inb + [m] else inb[i := m];
      && DistinctIds(inb') && Lookup(inb', id) == (if id == m.id then Some(m) else Lookup(inb, id))
      && forall x :: x in inb' ==> x == m || x in inb
  {
    var i := IndexOf(inb, m.id);
    if i < 0 {
      LookupAppend(inb, m, id);
    } else {
      LookupUpdate(inb, i, m, id);
    }
  }

  /** The record the receiver keeps of a PUBLISH on its way parses back. */
  lemma ReceivedRecordOk(s: System, p: Publish, uid: nat)
    requires SysInv(s) && |s.toR| > 0 && s.toR[0] == Pub(p, uid) && p.qos == 2
    ensures ReceivedOk(s.recv.v5, Key(ReceivedKey, s.recv.v5, p.id), Stored(Record(s.recv.v5, p), uid))
  {
    hide IdInv, Inv, ReceiverOk, InPersisted, NoneLost, DeliveredOk, RestorePacket;
    var x := Lookup(s.run.client.out, p.id);
    OutMember(s.run, p.id);
    StorePublishId(s.recv.v5, x, Lookup(s.recv.inb, p.id), StoredFor(s.recv, p.id), s.toR, s.toS, s.delivered, p.id,
                   Stored(Record(s.recv.v5, p), uid));
  }

  lemma ReceiverAfterPublish(c: Client, p: Publish, uid: nat, clear: bool)
    requires ReceiverOk(c) && InPersisted(c.v5, c.store) && p.qos == 2
    requires ReceivedOk(c.v5, Key(ReceivedKey, c.v5, p.id), Stored(Record(c.v5, p), uid))
    ensures var o := OnPublish(c, p, uid, clear);
      && o.client.v5 == c.v5 && ReceiverOk(o.client) && InPersisted(c.v5, o.client.store)
      && o.delivered == PassedOn(c, p, uid, clear) && o.sent == (if clear then [Ack(PUBREC, false, p.id)] else [])
      && (forall id :: StoredFor(o.client, id) ==
            if id == p.id then Some(Stored(Record(c.v5, p), uid)) else StoredFor(c, id))
      && (forall id :: Lookup(o.client.inb, id) ==
            if clear && id == p.id then Some(Received(p, uid)) else Lookup(c.inb, id))
  {
    hide ReceivedOk, Record, Received, OnPublish, InPersisted, StoredFor, Lookup, IndexOf;
    var o := OnPublish(c, p, uid, clear);
    PublishHandled(c, p, uid, clear);
    ReceivedFields(p, uid);
    StoreAfterPublish(c, o.client, p.id, Stored(Record(c.v5, p), uid));
    forall id
      ensures Lookup(o.client.inb, id) == if clear && id == p.id then Some(Received(p, uid)) else Lookup(c.inb, id)
    {
      ListAfterPublish(c.inb, Received(p, uid), id);
    }
    ListAfterPublish(c.inb, Received(p, uid), p.id);
  }

  lemma PublishHandled(c: Client, p: Publish, uid: nat, clear: bool)
    requires p.qos == 2
    ensures var i, m := IndexOf(c.inb, p.id), Received(p, uid);
      -1 <= i < |c.inb| && OnPublish(c, p, uid, clear) == Outcome(
        c.(store := c.store[Key(ReceivedKey, c.v5, p.id) := Stored(Record(c.v5, p), uid)],
           inb := if !clear then c.inb else if i < 0 then c.inb + [m] else c.inb[i := m]),
        if clear then [Ack(PUBREC, false, p.id)] else [], PassedOn(c, p, uid, clear), !clear)
  {
    hide Record, Received;
  }

  lemma StoreAfterPublish(c: Client, d: Client, id: int, r: Stored)
    requires InPersisted(c.v5, c.store) && d.v5 == c.v5 && d.store == c.store[Key(ReceivedKey, c.v5, id) := r]
    requires ReceivedOk(c.v5, Key(ReceivedKey, c.v5, id), r)
    ensures InPersisted(c.v5, d.store) && forall x :: StoredFor(d, x) == if x == id then Some(r) else StoredFor(c, x)
  {
    hide ReceivedOk;
  }

  lemma ReceivedFields(p: Publish, uid: nat)
    ensures var m := Received(p, uid); m.id == p.id && m.qos == p.qos && m.awaiting == AwaitPubrel
  {
  }

  lemma ReceiveQos2Step(s: System, clear: bool, arrives: bool)
    requires SysInv(s) && |s.toR| > 0 && s.toR[0].Pub? && s.toR[0].publish.qos == 2
    ensures SysInv(AfterReceiver(s, clear, arrives))
  {
    hide AllIds, Inv, NoneLost, DeliveredOk, ReceivedOk;
    hide Record, ReceiverOk, InPersisted, OnPublish, StoredFor, Received;
    var p, uid := s.toR[0].publish, s.toR[0].uid;
    var o := Handle(s.recv, s.toR[0], clear);
    var t := AfterReceiver(s, clear, arrives);
    ReceivedRecordOk(s, p, uid);
    ReceiverAfterPublish(s.recv, p, uid, clear);
    assert s.delivered + [] == s.delivered;
    ReceivePublishIds(s, p, uid, t, clear, Entering(o.sent, arrives));
    if o.delivered != [] {
      assert o.delivered == [Pub(p, uid)];
      NoneLostAfterDelivery(s.run.client.out, s.run.published, s.delivered, Pub(p, uid));
      DeliveredOkAfter(s.delivered, s.run.published, Pub(p, uid));
    }
  }

  /** What a receiver passes on when it handles the PUBREL of a message it holds. */
  function PassedOnAtPubrel(c: Client, held: Message): seq<Wire> {
    if c.v5 then [] else [Pub(ToPublish(held, false), held.uid)]
  }

  lemma ReceivePubrelIds(s: System, id: int, held: Message, t: System, ws: seq<Wire>)
    requires AllIds(s) && Inv(s.run) && |s.toR| > 0 && IsPubrel(s.toR[0], id) && Lookup(s.recv.inb, id) == Some(held)
    requires s.recv.v5 == t.recv.v5
    requires forall x :: StoredFor(t.recv, x) == if x == id then None else StoredFor(s.recv, x)
    requires forall x :: Lookup(t.recv.inb, x) == if x == id then None else Lookup(s.recv.inb, x)
    requires ws == [] || ws == [Ack(PUBCOMP, false, id)]
    requires t == s.(recv := t.recv, toR := s.toR[1..], toS := s.toS + ws,
                     delivered := s.delivered + PassedOnAtPubrel(s.recv, held))
    ensures AllIds(t)
    ensures held.uid < |s.run.published| && ToPublish(held, false) == ToPublish(s.run.published[held.uid], false)
    ensures Delivered(s.delivered, held.uid) == s.recv.v5
  {
    hide IdInv, Inv, MessageOk;
    OutMember(s.run, id);
    var m := Lookup(s.run.client.out, id);
    ReceivePubrelId(s.recv.v5, m, held, StoredFor(s.recv, id), s.toR, s.toS, s.delivered, id);
    var w := Pub(ToPublish(held, false), held.uid);
    forall x
      ensures IdInv(t.recv.v5, Lookup(t.run.client.out, x), Lookup(t.recv.inb, x), StoredFor(t.recv, x), t.toR, t.toS,
          t.delivered, x)
    {
      var y, h, stored := Lookup(s.run.client.out, x), Lookup(s.recv.inb, x), StoredFor(s.recv, x);
      assert s.toS + [] == s.toS && s.delivered + [] == s.delivered;
      if x != id {
        OutMember(s.run, x);
        UidsDiffer(s.run, y, m.value);
        PopToR(s.recv.v5, y, h, stored, s.toR, s.toS, s.delivered, x);
        DeliverOther(s.recv.v5, y, h, stored, s.toR[1..], s.toS, s.delivered, x, w);
        PushIrrelevant(s.recv.v5, y, h, stored, s.toR[1..], s.toS, t.delivered, x, Ack(PUBCOMP, false, id));
      }
    }
  }

  lemma UidsDiffer(r: Run, a: Option<Message>, b: Message)
    requires Inv(r) && (a.Some? ==> a.value in r.client.out && a.value.id != b.id) && b in r.client.out
    ensures a.Some? ==> a.value.uid != b.uid
  {
    hide Persisted, LogOk, LogDup, LogOrdered, LogMatches;
    if a.Some? {
      var out := r.client.out;
      var i :| 0 <= i < |out| && out[i] == a.value;
      var j :| 0 <= j < |out| && out[j] == b;
      assert if i < j then out[i].uid != out[j].uid else out[j].uid != out[i].uid;
    }
  }

  lemma ReceiverAfterPubrel(c: Client, id: int, clear: bool)
    requires ReceiverOk(c) && InPersisted(c.v5, c.store)
    ensures var i := IndexOf(c.inb, id); var o := OnPubrel(c, id, false, clear);
      if i < 0 || !clear then o.client == c && o.sent == [] && o.delivered == []
      else
        && o.sent == [Ack(PUBCOMP, false, id)] && o.delivered == PassedOnAtPubrel(c, c.inb[i])
        && o.client.v5 == c.v5 && ReceiverOk(o.client) && InPersisted(c.v5, o.client.store)
        && (forall x :: StoredFor(o.client, x) == if x == id then None else StoredFor(c, x))
        && (forall x :: Lookup(o.client.inb, x) == if x == id then None else Lookup(c.inb, x))
  {
    hide ReceivedOk;
    var i := IndexOf(c.inb, id);
    assert i >= 0 ==> c.inb[i] in c.inb;
    if i >= 0 && clear {
      var inb := RemoveAt(c.inb, i);
      forall x
        ensures Lookup(inb, x) == if x == id then None else Lookup(c.inb, x)
      {
        LookupRemove(c.inb, i, x);
      }
      LookupRemove(c.inb, i, id);
      assert OnPubrel(c, id, false, clear).client == c.(inb := inb, store := c.store - ReceivedKeys(id));
    }
  }

  lemma ReceivePubrelStep(s: System, clear: bool, arrives: bool)
    requires SysInv(s) && |s.toR| > 0 && s.toR[0].Ack?
    ensures SysInv(AfterReceiver(s, clear, arrives))
  {
    hide AllIds, Inv, NoneLost, DeliveredOk, OnPubrel, ReceiverOk, InPersisted, StoredFor;
    var id := s.toR[0].id;
    assert s.toR[0] == Ack(PUBREL, false, id);
    ReceiverAfterPubrel(s.recv, id, clear);
    var o := Handle(s.recv, s.toR[0], clear);
    var t := AfterReceiver(s, clear, arrives);
    var i := IndexOf(s.recv.inb, id);
    if i < 0 || !clear {
      assert s.delivered + [] == s.delivered;
      ReceiverIdsPopped(s, t, []);
    } else {
      var held := s.recv.inb[i];
      var w := Pub(ToPublish(held, false), held.uid);
      ReceivePubrelIds(s, id, held, t, Entering(o.sent, arrives));
      if s.recv.v5 {
        assert s.delivered + [] == s.delivered;
      } else {
        NoneLostAfterDelivery(s.run.client.out, s.run.published, s.delivered, w);
        DeliveredOkAfter(s.delivered, s.run.published, w);
      }
    }
  }

  // ----- disconnections and crashes -----

  /** Channels lose what they hold. */
  lemma DisconnectIds(s: System, t: System)
    requires AllIds(s) && t == s.(run := t.run, toR := t.toR, toS := t.toS)
    requires (t.toR == s.toR || t.toR == []) && (t.toS == s.toS || t.toS == [])
    requires forall id :: Lookup(t.run.client.out, id) == Lookup(s.run.client.out, id)
    ensures AllIds(t)
  {
    hide IdInv;
    forall id
      ensures IdInv(t.recv.v5, Lookup(t.run.client.out, id), Lookup(t.recv.inb, id), StoredFor(t.recv, id), t.toR,
          t.toS, t.delivered, id)
    {
      EmptyChannels(s.recv.v5, Lookup(s.run.client.out, id), Lookup(s.recv.inb, id), StoredFor(s.recv, id), s.toR,
          s.toS, s.delivered, id);
    }
  }

  /** What a restarted MQTT 5 sender waits for again, the receiver is ready for. */
  lemma AgainId(v5: bool, m: Option<Message>, held: Option<Message>, stored: Option<Stored>,
                toR: seq<Wire>, toS: seq<Wire>, delivered: seq<Wire>, id: int)
    requires IdInv(v5, m, held, stored, toR, toS, delivered, id) && (m.Some? ==> m.value.id == id)
    requires v5 && m.Some? && m.value.awaiting == AwaitPubcomp ==> held.Some? && NoRel(toR, id)
    ensures IdInv(v5, AgainIfAny(v5, m), held, stored, toR, [], delivered, id)
  {
    hide RestorePacket, Delivered;
    if m.Some? {
      assert ToPublish(Again(v5, m.value), false) == ToPublish(m.value, false);
      assert ToPublish(Again(v5, m.value), true) == ToPublish(m.value, true);
    }
  }

  /** The sender restarts, and the channel to it is lost. */
  lemma AgainIds(s: System, t: System)
    requires AllIds(s) && NoneFinished(s, s.run.client.out) && t == s.(run := t.run, toS := [])
    requires forall id :: Lookup(t.run.client.out, id) == AgainIfAny(s.recv.v5, Lookup(s.run.client.out, id))
    ensures AllIds(t)
  {
    hide IdInv;
    forall id
      ensures IdInv(t.recv.v5, Lookup(t.run.client.out, id), Lookup(t.recv.inb, id), StoredFor(t.recv, id), t.toR,
          t.toS, t.delivered, id)
    {
      AgainId(s.recv.v5, Lookup(s.run.client.out, id), Lookup(s.recv.inb, id), StoredFor(s.recv, id), s.toR, s.toS,
          s.delivered, id);
    }
  }

  /** What a restart makes of the messages, by id. */
  lemma AgainByLookup(v5: bool, out: seq<Message>, now: seq<Message>, id: int)
    requires DistinctIds(out) && DistinctIds(now) && SameMembers(now, AllAgain(v5, out))
    ensures Lookup(now, id) == AgainIfAny(v5, Lookup(out, id))
  {
    hide AllAgain;
    AgainLookup(v5, out, id);
    SameMembersSameLookup(now, AllAgain(v5, out), id);
  }

  lemma AgainNoneLost(v5: bool, out: seq<Message>, published: seq<Message>, delivered: seq<Wire>)
    requires NoneLost(out, published, delivered)
    ensures NoneLost(AllAgain(v5, out), published, delivered)
  {
    hide Delivered, AllAgain;
    AgainMembers(v5, out);
    forall u | 0 <= u < |published| && published[u].qos == 2 && !Delivered(delivered, u)
      ensures exists m :: m in AllAgain(v5, out) && m.uid == u
    {
      var m :| m in out && m.uid == u;
      assert Again(v5, m) in AllAgain(v5, out);
    }
  }

  lemma SameMembersNoneLost(a: seq<Message>, b: seq<Message>, published: seq<Message>, delivered: seq<Wire>)
    requires NoneLost(a, published, delivered) && SameMembers(a, b)
    ensures NoneLost(b, published, delivered)
  {
    hide Delivered;
    forall u | 0 <= u < |published| && published[u].qos == 2 && !Delivered(delivered, u)
      ensures exists m :: m in b && m.uid == u
    {
      var m :| m in a && m.uid == u;
      assert m in b;
    }
  }

  lemma SenderCrashStep(s: System, keys: seq<Key>)
    requires SysInv(s) && Next(s, SenderCrash(keys)).Some?
    ensures SysInv(Next(s, SenderCrash(keys)).value)
  {
    hide AllIds, Inv, ReceiverOk, InPersisted, Restart, NoneLost, DeliveredOk, NoneFinished, AllAgain, NoneForgotten;
    LastInRange(s.run);
    var t := Next(s, SenderCrash(keys)).value;
    assert s.toR + [] == s.toR;
    CrashKeepsPersisted(s.run, keys);
    SenderRestarted(s, t);
  }

  /** Any restart of the sender with the messages it had. */
  lemma SenderRestarted(s: System, t: System)
    requires SysInv(s) && NoneFinished(s, s.run.client.out) && t == s.(run := t.run, toS := []) && Inv(t.run)
    requires t.run.client.v5 == s.run.client.v5 && t.run.published == s.run.published
    requires SameMembers(t.run.client.out, AllAgain(s.run.client.v5, s.run.client.out))
    ensures SysInv(t)
  {
    hide AllIds, Inv, ReceiverOk, InPersisted, Restart, NoneLost, DeliveredOk, NoneFinished, AllAgain;
    hide ToReceiverOk;
    InvDistinct(s.run);
    InvDistinct(t.run);
    forall id
      ensures Lookup(t.run.client.out, id) == AgainIfAny(s.recv.v5, Lookup(s.run.client.out, id))
    {
      AgainByLookup(s.recv.v5, s.run.client.out, t.run.client.out, id);
    }
    AgainIds(s, t);
    AgainNoneLost(s.recv.v5, s.run.client.out, s.run.published, s.delivered);
    SameMembersNoneLost(AllAgain(s.recv.v5, s.run.client.out), t.run.client.out, s.run.published, s.delivered);
  }

  lemma SenderCrashInPubcompStep(s: System, keys: seq<Key>)
    requires SysInv(s) && Next(s, SenderCrashInPubcomp(keys)).Some?
    ensures SysInv(Next(s, SenderCrashInPubcomp(keys)).value)
  {
    hide AllIds, Inv, ReceiverOk, InPersisted, Restart, NoneLost, DeliveredOk, MessageOk, HalfRemoved, Complete;
    hide NoneFinished, AllAgain, NoneForgotten, SameMembers;
    LastInRange(s.run);
    var id := s.toS[0].id;
    var out := s.run.client.out;
    var i := IndexOf(out, id);
    MemberLookup(s.run, out[i]);
    QosOfOk(s.run.client.v5, out[i]);
    assert s.toR + [] == s.toR;
    var mid := s.(run := s.run.(client := Complete(s.run.client, i)), toS := s.toS[1..]);
    CompleteStep(s, i, mid);
    assert mid.run.client.out == RemoveAt(out, i) && mid.run.client.v5 == s.run.client.v5 by {
      CompletedOut(s.run.client, i);
    }
    assert NoneFinished(mid, RemoveAt(out, i)) by { SameFinished(s, mid, RemoveAt(out, i)); }
    var t := Next(s, SenderCrashInPubcomp(keys)).value;
    CrashInPubcompKeepsInv(s.run, id, keys);
    SenderRestarted(mid, t);
  }

  lemma SameFinished(s: System, t: System, out: seq<Message>)
    requires t.recv == s.recv && t.toR == s.toR
    ensures NoneFinished(t, out) == NoneFinished(s, out)
  {
  }

  lemma CompletedOut(c: Client, i: int)
    requires 0 <= i < |c.out|
    ensures Complete(c, i).out == RemoveAt(c.out, i) && Complete(c, i).v5 == c.v5
  {
  }

  /** The receiver restarts from its store, which holds only received publications. */
  lemma ReceiverRestarts(c: Client, keys: seq<Key>)
    requires ReceiverOk(c) && InPersisted(c.v5, c.store) && Lists(keys, c.store)
    ensures Restart(c.v5, c.store, keys).Some?
    ensures var d := Restart(c.v5, c.store, keys).value;
      d.v5 == c.v5 && ReceiverOk(d) && d.store == c.store && InboundFromStore(c.v5, d.inb, c.store)
  {
    hide RestorePacket, Restart, InboundFromStore;
    forall id
      ensures IdPersisted(c.v5, false, Lookup([], id), c.store, id)
    {
    }
    RestartRecovers(c.v5, false, [], c.store, keys);
    var d := Restart(c.v5, c.store, keys).value;
    HasMember(d.out);
    assert d.store == c.store;
    InboundIsReceived(c.v5, d.inb, c.store);
  }

  lemma HasMember(ms: seq<Message>)
    ensures ms != [] ==> exists m :: m in ms
  {
    if ms != [] {
      assert ms[0] in ms;
    }
  }

  lemma InboundIsReceived(v5: bool, inb: seq<Message>, store: map<Key, Stored>)
    requires InboundFromStore(v5, inb, store) && InPersisted(v5, store)
    ensures DistinctIds(inb) && forall m :: m in inb ==> m.qos == 2 && m.awaiting == AwaitPubrel
  {
    hide RestorePacket;
    forall m | m in inb
      ensures m.qos == 2 && m.awaiting == AwaitPubrel
    {
      LookupByMembership(inb, m);
      var k := Key(ReceivedKey, v5, m.id);
      assert ReceivedOk(v5, k, store[k]);
    }
  }

  lemma ReceiverCrashStep(s: System, keys: seq<Key>)
    requires SysInv(s) && AllListed(s.recv) && Lists(keys, s.recv.store)
    ensures ReceiverBack(s, keys).Some? && SysInv(ReceiverBack(s, keys).value)
  {
    hide IdInv, Inv, ReceiverOk, InPersisted, Restart, NoneLost, DeliveredOk, ReceivedMessage, Lists;
    ReceiverRestarts(s.recv, keys);
    var t := ReceiverBack(s, keys).value;
    forall id
      ensures IdInv(t.recv.v5, Lookup(t.run.client.out, id), Lookup(t.recv.inb, id), StoredFor(t.recv, id), t.toR,
          t.toS, t.delivered, id)
    {
      ReceiverRestartId(s.recv.v5, Lookup(s.run.client.out, id), Lookup(s.recv.inb, id), StoredFor(s.recv, id),
                        s.toR, s.toS, s.delivered, id);
    }
  }

  lemma NextKeepsInv(s: System, step: Step)
    requires SysInv(s)
    ensures 0 <= s.run.client.last <= MAX_MSG_ID
    ensures Next(s, step).Some? ==> SysInv(Next(s, step).value)
  {
    LastInRange(s.run);
    hide SysInv, Handle, Apply, Restart;
    if Next(s, step).Some? {
      match step {
        case SenderActs(e, arrives) => if e.Publish? { PublishStep(s, e, arrives); } else { RetryStep(s, e, arrives); }
        case SenderReceives(arrives) => AckStep(s, arrives);
        case ReceiverReceives(clear, arrives) => ReceiverStep(s, clear, arrives);
        case Disconnect => DisconnectStep(s);
        case SenderCrash(keys) => SenderCrashStep(s, keys);
        case SenderCrashInPubcomp(keys) => SenderCrashInPubcompStep(s, keys);
        case ReceiverCrash(keys) => ReceiverCrashStep(s, keys);
      }
    }
  }

  lemma ReceiverStep(s: System, clear: bool, arrives: bool)
    requires SysInv(s) && |s.toR| > 0
    ensures SysInv(AfterReceiver(s, clear, arrives))
  {
    hide SysInv, AfterReceiver;
    if s.toR[0].Ack? {
      ReceivePubrelStep(s, clear, arrives);
    } else if s.toR[0].publish.qos == 2 {
      ReceiveQos2Step(s, clear, arrives);
    } else {
      ReceiveQos1Step(s, clear, arrives);
    }
  }

  lemma DisconnectStep(s: System)
    requires SysInv(s)
    ensures SysInv(Disconnected(s))
  {
    hide AllIds, Inv, ReceiverOk, InPersisted, NoneLost, DeliveredOk;
    DisconnectIds(s, Disconnected(s));
  }

  // ----- whole runs -----

  lemma BeginningInv(v5: bool)
    ensures SysInv(Beginning(v5))
  {
    StartInv(v5);
  }

  /** The system of clients of the given version after a sequence of steps. */
  ghost function SystemAfter(v5: bool, steps: seq<Step>): (s: Option<System>)
    ensures s.Some? ==> SysInv(s.value)
    decreases |steps|
  {
    if |steps| == 0 then
      BeginningInv(v5);
      Some(Beginning(v5))
    else
      var before := SystemAfter(v5, steps[..|steps| - 1]);
      if before.None? then None
      else
        NextKeepsInv(before.value, steps[|steps| - 1]);
        Next(before.value, steps[|steps| - 1])
  }

  /** How often a publication has been handed to Protocol_processPublication. */
  function Deliveries(delivered: seq<Wire>, uid: nat): nat {
    if |delivered| == 0 then 0
    else Deliveries(delivered[..|delivered| - 1], uid)
         + (if delivered[|delivered| - 1].Pub? && delivered[|delivered| - 1].uid == uid then 1 else 0)
  }

  lemma {:induction false} DeliveriesCount(delivered: seq<Wire>, published: seq<Message>, uid: nat)
    requires DeliveredOk(delivered, published) && uid < |published| && published[uid].qos == 2
    ensures Deliveries(delivered, uid) == if Delivered(delivered, uid) then 1 else 0
  {
    if |delivered| > 0 {
      var init, last := delivered[..|delivered| - 1], delivered[|delivered| - 1];
      assert delivered == init + [last];
      DeliveriesCount(init, published, uid);
      DeliveredAppend(init, last, uid);
      if Delivered(init, uid) {
        var i :| 0 <= i < |init| && init[i].Pub? && init[i].uid == uid;
        assert delivered[i] == init[i] && last.uid != uid;
      }
    }
  }

  /** Exactly once: in every run, with retries, refused sends, disconnections, crashes of either client and reuse of
      ids, each QoS 2 publication is delivered at most once, exactly once by the time it has left outboundMsgs,
      and with the topic, payload and retain flag it was published with. */
  lemma ExactlyOnce(v5: bool, steps: seq<Step>, uid: nat)
    requires SystemAfter(v5, steps).Some?
    requires uid < |SystemAfter(v5, steps).value.run.published|
    requires SystemAfter(v5, steps).value.run.published[uid].qos == 2
    ensures var s := SystemAfter(v5, steps).value;
      && Deliveries(s.delivered, uid) <= 1
      && ((forall m :: m in s.run.client.out ==> m.uid != uid) ==> Deliveries(s.delivered, uid) == 1)
  {
    hide Next, Inv, AllIds, ReceiverOk, InPersisted;
    var s := SystemAfter(v5, steps).value;
    DeliveriesCount(s.delivered, s.run.published, uid);
  }

  lemma DeliveredAsPublished(v5: bool, steps: seq<Step>, i: nat)
    requires SystemAfter(v5, steps).Some? && i < |SystemAfter(v5, steps).value.delivered|
    ensures var s := SystemAfter(v5, steps).value; var w := s.delivered[i];
      w.Pub? && w.uid < |s.run.published| && w.publish == ToPublish(s.run.published[w.uid], w.publish.dup)
  {
    hide Next, Inv, AllIds, ReceiverOk, InPersisted;
  }

  // ----- from any state that satisfies the invariant -----

  /** The system after more steps. */
  ghost function Onward(s: System, steps: seq<Step>): Option<System>
    decreases |steps|
  {
    if |steps| == 0 then Some(s)
    else if s.run.client.last < 0 || MAX_MSG_ID < s.run.client.last then None
    else
      var t := Next(s, steps[0]);
      if t.None? then None else Onward(t.value, steps[1..])
  }

  lemma {:induction false} OnwardKeepsInv(s: System, steps: seq<Step>)
    requires SysInv(s) && Onward(s, steps).Some?
    ensures SysInv(Onward(s, steps).value)
    decreases |steps|
  {
    hide SysInv, Next;
    if |steps| > 0 {
      NextKeepsInv(s, steps[0]);
      OnwardKeepsInv(Next(s, steps[0]).value, steps[1..]);
    }
  }

  /** Exactly once holds in every run on from any state of the invariant, such as that after a safe stop inside a
      handler. */
  lemma ExactlyOnceFrom(s: System, steps: seq<Step>, uid: nat)
    requires SysInv(s) && Onward(s, steps).Some?
    requires uid < |Onward(s, steps).value.run.published| && Onward(s, steps).value.run.published[uid].qos == 2
    ensures var t := Onward(s, steps).value;
      && Deliveries(t.delivered, uid) <= 1
      && ((forall m :: m in t.run.client.out ==> m.uid != uid) ==> Deliveries(t.delivered, uid) == 1)
  {
    hide Onward, Inv, AllIds, ReceiverOk, InPersisted;
    OnwardKeepsInv(s, steps);
    var t := Onward(s, steps).value;
    DeliveriesCount(t.delivered, t.run.published, uid);
  }
}
