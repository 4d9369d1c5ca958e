/** Runs of a client's outbound half, with any acknowledgements, retries, session cleans and crashes. */
module Sender {
  import opened Bytes
  import opened Packets
  import opened Session
  import opened SendOrder
  import opened Recovery
  import Properties

  /** A packet handed to the socket, with the publication it belongs to. */
  datatype Sent = Sent(uid: nat, wire: Wire)

  /** The client, the publications started so far (the uid is the index), the packets sent for them, and whether a
      restart has forgotten a PUBREL. */
  datatype Run = Run(client: Client, published: seq<Message>, log: seq<Sent>, forgot: bool)

  datatype Event =
    | Publish(qos: int, retain: bool, topic: seq<byte>, payload: seq<byte>, properties: seq<Properties.Property>)
    | Puback(id: int)
    | Pubrec(id: int, refused: bool)
    | Pubcomp(id: int)
    | Retry(index: int)
    | CleanSession
    | Crash(keys: seq<Key>)
    | CrashInPubcomp(id: int, keys: seq<Key>)

  function Start(v5: bool): Run {
    Run(Client(v5, [], [], 0, map[]), [], [], false)
  }

  /** The message of a Publish event, with the id assigned. */
  function NewMessage(r: Run, e: Event, id: int): Message
    requires e.Publish?
  {
    Message(id, e.qos, e.retain, e.topic, e.payload, e.properties, if e.qos == 2 then AwaitPubrec else Unset,
        |r.published|)
  }

  /** MQTTPersistence_remove stops after the PUBLISH record, before the PUBREL record. */
  function HalfRemoved(c: Client, id: int): map<Key, Stored> {
    c.store - {Key(SentKey, true, id), Key(RelKey, true, id), Key(SentKey, false, id)}
  }

  function LogSent(uid: nat, wires: seq<Wire>): seq<Sent> {
    if |wires| == 0 then [] else [Sent(uid, wires[0])]
  }

  ghost function AfterPublish(r: Run, m: Message): Run {
    var s := StartPublish(r.client, m);
    r.(client := s.0, published := r.published + [m], log := r.log + [Sent(m.uid, s.1)])
  }

  ghost function AfterPubrec(r: Run, id: int, refused: bool): Run {
    var m := Lookup(r.client.out, id);
    var s := OnPubrec(r.client, id, refused);
    r.(client := s.0, log := r.log + (if m.Some? then LogSent(m.value.uid, s.1) else []))
  }

  ghost function AfterRetry(r: Run, m: Message): Run {
    var s := Session.Retry(r.client, m);
    r.(client := s.0, log := r.log + LogSent(m.uid, s.1))
  }

  /** A crash that leaves the given messages and store, and a restart from that store. */
  ghost function AfterCrash(r: Run, out: seq<Message>, store: map<Key, Stored>, keys: seq<Key>): Option<Run> {
    var d := Restart(r.client.v5, store, keys);
    if !Lists(keys, store) || d.None? then None
    else Some(r.(client := d.value, forgot := r.forgot || !NoneForgotten(r.client.v5, out)))
  }

  /** One event; None when it cannot happen. A publication the packet format cannot carry, or for which no
      id is free, is not started. */
  ghost function Apply(r: Run, e: Event): (s: Option<Run>)
    requires 0 <= r.client.last <= MAX_MSG_ID
  {
    var c := r.client;
    match e
    case Publish(_, _, _, _, _) =>
      var id := AssignMsgId(c.out, c.last);
      var m := NewMessage(r, e, id);
      if id == 0 || !MessageOk(c.v5, m) then None else Some(AfterPublish(r, m))
    case Puback(id) => Some(r.(client := OnPuback(c, id)))
    case Pubrec(id, refused) => Some(AfterPubrec(r, id, refused))
    case Pubcomp(id) => Some(r.(client := OnPubcomp(c, id)))
    case Retry(i) => if 0 <= i < |c.out| then Some(AfterRetry(r, c.out[i])) else None
    case CleanSession => Some(r.(client := Client(c.v5, [], [], 0, map[])))
    case Crash(keys) => AfterCrash(r, c.out, c.store, keys)
    case CrashInPubcomp(id, keys) =>
      var i := IndexOf(c.out, id);
      if i < 0 || c.out[i].awaiting != AwaitPubcomp then None
      else AfterCrash(r, RemoveAt(c.out, i), HalfRemoved(c, id), keys)
  }

  // ----- the invariant -----

  predicate UidsOk(out: seq<Message>, published: seq<Message>) {
    && (forall i, j :: 0 <= i < j < |out| ==> out[i].uid != out[j].uid)
    && (forall m :: m in out ==> m.uid < |published| && m == published[m.uid].(awaiting := m.awaiting))
  }

  /** A sent packet is the PUBLISH or the PUBREL of its publication. */
  predicate SentOk(e: Sent, published: seq<Message>) {
    && e.uid < |published|
    && match e.wire
       case Pub(p, uid) => uid == e.uid && p == ToPublish(published[e.uid], p.dup)
       case Ack(kind, dup, id) => kind == PUBREL && !dup && published[e.uid].qos == 2 && id == published[e.uid].id
  }

  predicate LogOk(log: seq<Sent>, published: seq<Message>) {
    forall i :: 0 <= i < |log| ==> SentOk(log[i], published)
  }

  /** Every PUBLISH but the first packet of a publication has DUP set. */
  predicate LogDup(log: seq<Sent>) {
    forall i, j :: 0 <= i < j < |log| && log[i].uid == log[j].uid && log[j].wire.Pub? ==> log[j].wire.publish.dup
  }

  /** Packets of one publication: PUBLISH*, then PUBREL*. */
  predicate LogOrdered(log: seq<Sent>) {
    forall i, j :: 0 <= i < j < |log| && log[i].uid == log[j].uid && log[j].wire.Pub? ==> log[i].wire.Pub?
  }

  /** A message for which PUBREL was sent waits for PUBCOMP. */
  predicate LogMatches(log: seq<Sent>, out: seq<Message>) {
    forall i, m :: 0 <= i < |log| && m in out && log[i].uid == m.uid && log[i].wire.Ack? ==> m.awaiting == AwaitPubcomp
  }

  ghost predicate Inv(r: Run) {
    && 0 <= r.client.last <= MAX_MSG_ID
    && Persisted(r.client.v5, r.forgot, r.client.out, r.client.store)
    && LogInv(r.forgot, r.client.out, r.published, r.log)
    && (r.forgot ==> r.client.v5)
  }

  predicate LogInv(forgot: bool, out: seq<Message>, published: seq<Message>, log: seq<Sent>) {
    && UidsOk(out, published) && LogOk(log, published) && LogDup(log)
    && (!forgot ==> LogOrdered(log) && LogMatches(log, out))
  }

  // ----- the store after each handler -----

  /** What a freshly written PUBLISH record holds. */
  lemma RecordHolds(v5: bool, m: Message, dup: bool)
    requires MessageOk(v5, m)
    ensures Holds(v5, Stored(Record(v5, ToPublish(m, dup)), m.uid), m)
  {
    assert Body(v5, ToPublish(m, dup)) == Body(v5, ToPublish(m, false));
    RestorePublish(v5, ToPublish(m, dup));
    hide RestorePacket;
  }

  /** The client's half of the invariant. */
  ghost predicate Persisted(v5: bool, forgot: bool, out: seq<Message>, store: map<Key, Stored>) {
    OutPersisted(v5, forgot, out, store) && NoOrphans(out, store) && InPersisted(v5, store)
  }

  lemma OneIdChanges(
      v5: bool, forgot: bool, out: seq<Message>, store: map<Key, Stored>,
      out': seq<Message>, store': map<Key, Stored>, id: int)
    requires OutPersisted(v5, forgot, out, store) && InPersisted(v5, store)
    requires DistinctIds(out') && IdPersisted(v5, forgot, Lookup(out', id), store', id)
    requires forall i :: i != id ==> Lookup(out', i) == Lookup(out, i)
    requires forall k :: k in store' ==>
      (k in store && store'[k] == store[k]) || k == Key(SentKey, v5, id) || k == Key(RelKey, false, id)
    requires forall k :: k in store && k.id != id ==> k in store' && store'[k] == store[k]
    ensures OutPersisted(v5, forgot, out', store') && InPersisted(v5, store')
    ensures NoOrphans(out, store) && (Lookup(out', id).Some? || Key(RelKey, false, id) !in store')
            ==> NoOrphans(out', store')
  {
    hide RestorePacket, MessageOk, ReceivedOk, Holds;
    forall i
      ensures IdPersisted(v5, forgot, Lookup(out', i), store', i)
    {
      assert IdPersisted(v5, forgot, Lookup(out, i), store, i);
    }
  }

  lemma StartPublishPersists(forgot: bool, c: Client, m: Message)
    requires Persisted(c.v5, forgot, c.out, c.store)
    requires MessageOk(c.v5, m) && m.awaiting != AwaitPubcomp && Lookup(c.out, m.id).None?
    ensures var d := StartPublish(c, m).0; Persisted(c.v5, forgot, d.out, d.store)
  {
    hide RestorePacket, MessageOk, Record, ReceivedOk, Holds;
    RecordHolds(c.v5, m, false);
    var d := StartPublish(c, m).0;
    forall id
      ensures Lookup(d.out, id) == if id == m.id then Some(m) else Lookup(c.out, id)
    {
      LookupAppend(c.out, m, id);
    }
    assert Key(RelKey, false, m.id) !in d.store;
    assert IdPersisted(c.v5, forgot, Lookup(d.out, m.id), d.store, m.id);
    OneIdChanges(c.v5, forgot, c.out, c.store, d.out, d.store, m.id);
  }

  lemma RemovePersists(forgot: bool, c: Client, i: int, keys: set<Key>)
    requires Persisted(c.v5, forgot, c.out, c.store)
    requires 0 <= i < |c.out| && Key(SentKey, c.v5, c.out[i].id) in keys
    requires forall k :: k in keys ==> k.id == c.out[i].id
    requires forall k :: k in keys ==> k.kind == SentKey || k.kind == RelKey
    ensures var out, store := RemoveAt(c.out, i), c.store - keys;
      OutPersisted(c.v5, forgot, out, store) && InPersisted(c.v5, store) &&
      (Key(RelKey, false, c.out[i].id) in keys ==> Persisted(c.v5, forgot, out, store))
  {
    hide RestorePacket, MessageOk, ReceivedOk, Holds;
    var id := c.out[i].id;
    var out, store := RemoveAt(c.out, i), c.store - keys;
    LookupRemove(c.out, i, id);
    forall x | x != id
      ensures Lookup(out, x) == Lookup(c.out, x)
    {
      LookupRemove(c.out, i, x);
    }
    assert IdPersisted(c.v5, forgot, Lookup(c.out, id), c.store, id);
    assert IdPersisted(c.v5, forgot, Lookup(out, id), store, id);
    OneIdChanges(c.v5, forgot, c.out, c.store, out, store, id);
  }

  lemma CompletePersists(forgot: bool, c: Client, i: int)
    requires Persisted(c.v5, forgot, c.out, c.store) && 0 <= i < |c.out|
    ensures Persisted(c.v5, forgot, Complete(c, i).out, Complete(c, i).store)
  {
    RemovePersists(forgot, c, i, SentKeys(c.out[i].id));
  }

  lemma ReplacePersists(forgot: bool, c: Client, i: int, m: Message, k: Key, s: Stored)
    requires Persisted(c.v5, forgot, c.out, c.store)
    requires 0 <= i < |c.out| && MessageOk(c.v5, m) && m == c.out[i].(awaiting := m.awaiting)
    requires (k == Key(SentKey, c.v5, m.id) && Holds(c.v5, s, m) && m == c.out[i])
             || (k == Key(RelKey, false, m.id) && m.awaiting == AwaitPubcomp
                 && RestorePacket(false, s.bytes) == Some(AckPacket(PUBREL, false, m.id)))
    ensures Persisted(c.v5, forgot, c.out[i := m], c.store[k := s])
  {
    hide RestorePacket, MessageOk, Holds, InPersisted;
    var out, store := c.out[i := m], c.store[k := s];
    LookupUnique(c.out, i);
    forall id
      ensures Lookup(out, id) == if id == m.id then Some(m) else Lookup(c.out, id)
    {
      LookupUpdate(c.out, i, m, id);
    }
    assert IdPersisted(c.v5, forgot, Lookup(c.out, m.id), c.store, m.id);
    assert DistinctIds(out);
    hide OutPersisted, NoOrphans, DistinctIds;
    assert IdPersisted(c.v5, forgot, Some(m), store, m.id) by { ReplacedId(c.v5, forgot, c.out[i], m, c.store, k, s); }
    hide IdPersisted;
    OneIdChanges(c.v5, forgot, c.out, c.store, out, store, m.id);
  }

  lemma ReplacedId(v5: bool, forgot: bool, o: Message, m: Message, store: map<Key, Stored>, k: Key, s: Stored)
    requires IdPersisted(v5, forgot, Some(o), store, m.id) && MessageOk(v5, m) && m == o.(awaiting := m.awaiting)
    requires (k == Key(SentKey, v5, m.id) && Holds(v5, s, m) && m == o)
             || (k == Key(RelKey, false, m.id) && m.awaiting == AwaitPubcomp
                 && RestorePacket(false, s.bytes) == Some(AckPacket(PUBREL, false, m.id)))
    ensures IdPersisted(v5, forgot, Some(m), store[k := s], m.id)
  {
    assert ToPublish(m, false) == ToPublish(o, false) && ToPublish(m, true) == ToPublish(o, true);
    hide RestorePacket, MessageOk;
  }

  lemma PubrelHolds(id: int)
    requires 1 <= id <= MAX_MSG_ID
    ensures RestorePacket(false, RelRecord(id)) == Some(AckPacket(PUBREL, false, id))
  {
    RestoreAck(PUBREL, false, id);
  }

  /** What persistence says of the i-th message. */
  lemma MemberOk(forgot: bool, c: Client, i: int)
    requires Persisted(c.v5, forgot, c.out, c.store) && 0 <= i < |c.out|
    ensures MessageOk(c.v5, c.out[i]) && 1 <= c.out[i].id <= MAX_MSG_ID
    ensures c.out[i].qos == 2 ==> MessageOk(c.v5, c.out[i].(awaiting := AwaitPubcomp))
    ensures c.out[i].qos != 2 ==> c.out[i].awaiting == Unset && c.out[i].qos == 1
    ensures c.out[i].qos == 2 ==> c.out[i].awaiting == AwaitPubrec || c.out[i].awaiting == AwaitPubcomp
  {
    hide RestorePacket, Holds, Sendable, IdPersisted, NoOrphans, InPersisted;
    MembersPersisted(c.v5, forgot, c.out, c.store);
    assert c.out[i] in c.out;
    assert ToPublish(c.out[i].(awaiting := AwaitPubcomp), false) == ToPublish(c.out[i], false);
  }

  lemma PubrecPersists(forgot: bool, c: Client, id: int, refused: bool)
    requires Persisted(c.v5, forgot, c.out, c.store)
    ensures var d := OnPubrec(c, id, refused).0;
      d.v5 == c.v5 && Persisted(c.v5, forgot, d.out, d.store)
  {
    hide RestorePacket, MessageOk, Persisted, RelRecord, Holds;
    var i := IndexOf(c.out, id);
    if i >= 0 && c.out[i].qos == 2 && c.out[i].awaiting == AwaitPubrec {
      MemberOk(forgot, c, i);
      PubrelHolds(id);
      CompletePersists(forgot, c, i);
      var m := c.out[i].(awaiting := AwaitPubcomp);
      ReplacePersists(forgot, c, i, m, Key(RelKey, false, id), Stored(RelRecord(id), m.uid));
    }
  }

  lemma RetryPersists(forgot: bool, c: Client, i: int)
    requires Persisted(c.v5, forgot, c.out, c.store)
    requires 0 <= i < |c.out|
    ensures var d := Session.Retry(c, c.out[i]).0;
      d.out == c.out && Persisted(c.v5, forgot, d.out, d.store)
  {
    hide RestorePacket, MessageOk, Persisted, RelRecord, Record, Holds;
    var m := c.out[i];
    assert c.out[i := m] == c.out;
    MemberOk(forgot, c, i);
    RecordHolds(c.v5, m, true);
    PubrelHolds(m.id);
    if m.qos == 2 && m.awaiting == AwaitPubcomp {
      ReplacePersists(forgot, c, i, m, Key(RelKey, false, m.id), Stored(RelRecord(m.id), m.uid));
    } else {
      ReplacePersists(forgot, c, i, m, Key(SentKey, c.v5, m.id), Stored(Record(c.v5, ToPublish(m, true)), m.uid));
    }
  }

  /** Half-way through removing a completed message, the store still matches the others. */
  lemma HalfRemovedPersists(forgot: bool, c: Client, i: int)
    requires Persisted(c.v5, forgot, c.out, c.store)
    requires 0 <= i < |c.out|
    ensures var out, store := RemoveAt(c.out, i), HalfRemoved(c, c.out[i].id);
      OutPersisted(c.v5, forgot, out, store) && InPersisted(c.v5, store)
  {
    var id := c.out[i].id;
    RemovePersists(forgot, c, i, {Key(SentKey, true, id), Key(RelKey, true, id), Key(SentKey, false, id)});
  }

  // ----- the log after each handler -----

  lemma LogAppend(forgot: bool, log: seq<Sent>, published: seq<Message>, out: seq<Message>, e: Sent)
    requires LogInv(forgot, out, published, log) && SentOk(e, published)
    requires e.wire.Pub? ==>
      forall i :: 0 <= i < |log| && log[i].uid == e.uid ==> e.wire.publish.dup && (!forgot ==> log[i].wire.Pub?)
    requires e.wire.Ack? ==> forall m :: m in out && m.uid == e.uid ==> m.awaiting == AwaitPubcomp
    ensures LogInv(forgot, out, published, log + [e])
  {
  }

  lemma SameMembersUids(forgot: bool, a: seq<Message>, b: seq<Message>, published: seq<Message>, log: seq<Sent>)
    requires LogInv(forgot, b, published, log) && DistinctIds(a) && forall m :: m in a ==> m in b
    ensures LogInv(forgot, a, published, log)
  {
    forall i, j | 0 <= i < j < |a|
      ensures a[i].uid != a[j].uid
    {
      assert a[i] in b && a[j] in b;
      var x :| 0 <= x < |b| && b[x] == a[i];
      var y :| 0 <= y < |b| && b[y] == a[j];
      assert x != y;
      assert if x < y then b[x].uid != b[y].uid else b[y].uid != b[x].uid;
    }
  }

  // ----- every event keeps the invariant -----

  lemma LogNewPublish(forgot: bool, out: seq<Message>, published: seq<Message>, log: seq<Sent>, m: Message)
    requires LogInv(forgot, out, published, log) && m.uid == |published| && m.awaiting != AwaitPubcomp
    ensures LogInv(forgot, out + [m], published + [m], log + [Sent(m.uid, Pub(ToPublish(m, false), m.uid))])
  {
    assert LogInv(forgot, out + [m], published + [m], log);
    LogAppend(forgot, log, published + [m], out + [m], Sent(m.uid, Pub(ToPublish(m, false), m.uid)));
  }

  lemma PublishKeepsInv(r: Run, m: Message)
    requires Inv(r) && MessageOk(r.client.v5, m) && Lookup(r.client.out, m.id).None?
    requires m.uid == |r.published| && m.awaiting != AwaitPubcomp
    ensures Inv(AfterPublish(r, m)) && AfterPublish(r, m).client.v5 == r.client.v5
  {
    hide Persisted, LogInv, Record, Sendable;
    StartPublishPersists(r.forgot, r.client, m);
    LogNewPublish(r.forgot, r.client.out, r.published, r.log, m);
  }

  lemma CompleteKeepsInv(r: Run, i: int)
    requires Inv(r) && 0 <= i < |r.client.out|
    ensures Inv(r.(client := Complete(r.client, i))) && Complete(r.client, i).v5 == r.client.v5
  {
    CompletePersists(r.forgot, r.client, i);
    var out := RemoveAt(r.client.out, i);
    LookupRemove(r.client.out, i, 0);
    assert forall m :: m in out ==> m in r.client.out;
    hide Persisted;
    SameMembersUids(r.forgot, out, r.client.out, r.published, r.log);
  }

  lemma LogAdvance(forgot: bool, out: seq<Message>, i: int, published: seq<Message>, log: seq<Sent>)
    requires LogInv(forgot, out, published, log) && 0 <= i < |out| && out[i].qos == 2
    ensures LogInv(forgot, out[i := out[i].(awaiting := AwaitPubcomp)], published,
                   log + [Sent(out[i].uid, Ack(PUBREL, false, out[i].id))])
  {
    var us := out[i := out[i].(awaiting := AwaitPubcomp)];
    assert out[i] in out;
    forall x | x in us
      ensures x == us[i] || (x in out && x.uid != out[i].uid)
    {
      var j :| 0 <= j < |us| && us[j] == x;
      if j != i { assert x == out[j]; }
    }
    LogAppend(forgot, log, published, us, Sent(out[i].uid, Ack(PUBREL, false, out[i].id)));
  }

  lemma PubrecKeepsInv(r: Run, id: int, refused: bool)
    requires Inv(r)
    ensures Inv(AfterPubrec(r, id, refused)) && AfterPubrec(r, id, refused).client.v5 == r.client.v5
  {
    hide Persisted, LogInv, RelRecord, Complete;
    var c := r.client;
    PubrecPersists(r.forgot, c, id, refused);
    var i := IndexOf(c.out, id);
    if i >= 0 && c.out[i].qos == 2 && c.out[i].awaiting == AwaitPubrec && c.v5 && refused {
      assert r.log + [] == r.log;
      CompleteKeepsInv(r, i);
    } else if i >= 0 && c.out[i].qos == 2 && c.out[i].awaiting == AwaitPubrec {
      LogAdvance(r.forgot, c.out, i, r.published, r.log);
      assert AfterPubrec(r, id, refused).log == r.log + [Sent(c.out[i].uid, Ack(PUBREL, false, id))];
    } else {
      assert r.log + [] == r.log;
    }
  }

  lemma RetrySends(c: Client, m: Message)
    requires MessageOk(c.v5, m)
    ensures var s := Session.Retry(c, m); s.0.out == c.out && s.0.v5 == c.v5 && s.0.last == c.last
    ensures Session.Retry(c, m).1 ==
      if m.awaiting == AwaitPubcomp then [Ack(PUBREL, false, m.id)] else [Pub(ToPublish(m, true), m.uid)]
  {
  }

  lemma LogRetry(forgot: bool, out: seq<Message>, m: Message, published: seq<Message>, log: seq<Sent>)
    requires LogInv(forgot, out, published, log) && m in out && (m.awaiting == AwaitPubcomp ==> m.qos == 2)
    ensures LogInv(forgot, out, published, log + [Sent(m.uid,
      if m.awaiting == AwaitPubcomp then Ack(PUBREL, false, m.id) else Pub(ToPublish(m, true), m.uid))])
  {
    forall x | x in out && x.uid == m.uid
      ensures x == m
    {
      var a :| 0 <= a < |out| && out[a] == x;
      var b :| 0 <= b < |out| && out[b] == m;
      assert a == b;
    }
    LogAppend(forgot, log, published, out, Sent(m.uid,
      if m.awaiting == AwaitPubcomp then Ack(PUBREL, false, m.id) else Pub(ToPublish(m, true), m.uid)));
  }

  lemma RetryKeepsInv(r: Run, i: int)
    requires Inv(r) && 0 <= i < |r.client.out|
    ensures Inv(AfterRetry(r, r.client.out[i])) && AfterRetry(r, r.client.out[i]).client.v5 == r.client.v5
  {
    hide LogInv, Session.Retry, OutPersisted, NoOrphans, InPersisted;
    var m := r.client.out[i];
    MembersPersisted(r.client.v5, r.forgot, r.client.out, r.client.store);
    assert m in r.client.out && (m.awaiting == AwaitPubcomp ==> m.qos == 2);
    RetrySends(r.client, m);
    RetryPersists(r.forgot, r.client, i);
    LogRetry(r.forgot, r.client.out, m, r.published, r.log);
  }

  /** The log still matches the messages that a restart brings back. */
  lemma LogAgain(v5: bool, forgot: bool, out: seq<Message>, published: seq<Message>, log: seq<Sent>)
    requires LogInv(forgot, out, published, log)
    ensures LogInv(forgot || !NoneForgotten(v5, out), AllAgain(v5, out), published, log)
  {
    NothingForgotten(v5, out);
    if !NoneForgotten(v5, out) {
      hide LogOk, LogDup, LogOrdered, LogMatches;
      var rs := AllAgain(v5, out);
      forall m | m in rs
        ensures m.uid < |published| && m == published[m.uid].(awaiting := m.awaiting)
      {
        var i :| 0 <= i < |rs| && rs[i] == m;
        assert out[i] in out;
      }
    }
  }

  lemma CrashKeepsInv(r: Run, out: seq<Message>, store: map<Key, Stored>, keys: seq<Key>)
    requires Inv(r) && Lists(keys, store)
    requires OutPersisted(r.client.v5, r.forgot, out, store) && InPersisted(r.client.v5, store)
    requires LogInv(r.forgot, out, r.published, r.log)
    ensures AfterCrash(r, out, store, keys).Some? && Inv(AfterCrash(r, out, store, keys).value)
    ensures var d := AfterCrash(r, out, store, keys).value.client;
      && d.v5 == r.client.v5 && Restart(r.client.v5, store, keys) == Some(d)
      && SameMembers(d.out, AllAgain(r.client.v5, out))
  {
    hide OutPersisted, NoOrphans, InPersisted, Restart, InboundFromStore, LogInv, AllAgain, Lists, Orphan;
    hide FollowsLargestGap, CyclicOrder;
    RestartRecovers(r.client.v5, r.forgot, out, store, keys);
    var d := Restart(r.client.v5, store, keys).value;
    RestartKeepsPersisted(r.forgot, d, out, store);
    LogAgain(r.client.v5, r.forgot, out, r.published, r.log);
    var forgets := r.forgot || !NoneForgotten(r.client.v5, out);
    SameMembersUids(forgets, d.out, AllAgain(r.client.v5, out), r.published, r.log);
  }

  lemma CrashInPubcompKeepsInv(r: Run, id: int, keys: seq<Key>)
    requires Inv(r) && IndexOf(r.client.out, id) >= 0 && Lists(keys, HalfRemoved(r.client, id))
    ensures var out := RemoveAt(r.client.out, IndexOf(r.client.out, id));
      var t := AfterCrash(r, out, HalfRemoved(r.client, id), keys);
      && t.Some? && t.value.client.v5 == r.client.v5 && Inv(t.value)
      && SameMembers(t.value.client.out, AllAgain(r.client.v5, out))
  {
    hide LogInv, OutPersisted, NoOrphans, InPersisted, Restart, NoneForgotten, AfterCrash, AllAgain;
    var c := r.client;
    var i := IndexOf(c.out, id);
    HalfRemovedPersists(r.forgot, c, i);
    assert forall m :: m in RemoveAt(c.out, i) ==> m in c.out;
    RemovedDistinct(c.out, i);
    SameMembersUids(r.forgot, RemoveAt(c.out, i), c.out, r.published, r.log);
    CrashKeepsInv(r, RemoveAt(c.out, i), HalfRemoved(c, id), keys);
  }

  lemma RemovedDistinct(ms: seq<Message>, i: int)
    requires 0 <= i < |ms|
    ensures DistinctIds(ms) ==> DistinctIds(RemoveAt(ms, i))
  {
    if DistinctIds(ms) { LookupRemove(ms, i, 0); }
  }

  lemma ApplyKeepsInv(r: Run, e: Event)
    requires Inv(r) && Apply(r, e).Some?
    ensures Inv(Apply(r, e).value)
    ensures Apply(r, e).value.client.v5 == r.client.v5
  {
    hide Persisted, LogInv, Restart, AssignMsgId, MessageOk, AfterPublish, AfterPubrec, AfterRetry, Complete;
    match e {
      case Publish(_, _, _, _, _) =>
        var id := AssignMsgId(r.client.out, r.client.last);
        AssignsFirstFree(r.client.out, r.client.last);
        PublishKeepsInv(r, NewMessage(r, e, id));
      case Puback(id) =>
        var i := IndexOf(r.client.out, id);
        if i >= 0 { CompleteKeepsInv(r, i); }
      case Pubrec(id, refused) => PubrecKeepsInv(r, id, refused);
      case Pubcomp(id) =>
        var i := IndexOf(r.client.out, id);
        if i >= 0 { CompleteKeepsInv(r, i); }
      case Retry(i) => RetryKeepsInv(r, i);
      case CleanSession => EmptySession(r);
      case Crash(keys) => CrashKeepsPersisted(r, keys);
      case CrashInPubcomp(id, keys) => CrashInPubcompKeepsInv(r, id, keys);
    }
  }

  lemma CrashKeepsPersisted(r: Run, keys: seq<Key>)
    requires Inv(r) && Lists(keys, r.client.store)
    ensures var t := AfterCrash(r, r.client.out, r.client.store, keys);
      && t.Some? && t.value.client.v5 == r.client.v5 && Inv(t.value)
      && SameMembers(t.value.client.out, AllAgain(r.client.v5, r.client.out))
      && Restart(r.client.v5, r.client.store, keys) == Some(t.value.client)
  {
    hide LogInv, OutPersisted, NoOrphans, InPersisted, Restart, AfterCrash;
    CrashKeepsInv(r, r.client.out, r.client.store, keys);
  }

  lemma EmptySession(r: Run)
    requires Inv(r)
    ensures Inv(r.(client := Client(r.client.v5, [], [], 0, map[])))
  {
  }

  // ----- whole runs -----

  /** The run of a client of the given version after a sequence of events. */
  ghost function RunOf(v5: bool, events: seq<Event>): (r: Option<Run>)
    ensures r.Some? ==> Inv(r.value) && r.value.client.v5 == v5
    decreases |events|
  {
    if |events| == 0 then
      StartInv(v5);
      Some(Start(v5))
    else
      var before := RunOf(v5, events[..|events| - 1]);
      if before.None? then None
      else
        var r := Apply(before.value, events[|events| - 1]);
        if r.Some? then ApplyKeepsInv(before.value, events[|events| - 1]); r else r
  }

  lemma LastInRange(r: Run)
    requires Inv(r)
    ensures 0 <= r.client.last <= MAX_MSG_ID
  {
  }

  lemma StartInv(v5: bool)
    ensures Inv(Start(v5))
  {
  }

  /** The messages that a crash leaves in the store. */
  function LeftInStore(c: Client, e: Event): seq<Message> {
    match e
    case Crash(_) => c.out
    case CrashInPubcomp(id, _) => var i := IndexOf(c.out, id); if i < 0 then [] else RemoveAt(c.out, i)
    case _ => []
  }

  /** A PUBREL has been forgotten exactly when some crash came while a message of an MQTT 5 client waited for
      PUBCOMP. */
  lemma ForgottenExactly(v5: bool, events: seq<Event>)
    requires RunOf(v5, events).Some?
    ensures RunOf(v5, events).value.forgot <==> exists k :: 0 <= k < |events| && ForgetsAt(v5, events, k)
  {
    hide RunOf, ForgetsAt, Inv;
    assert events[..|events|] == events;
    ForgottenBy(v5, events, |events|);
  }

  ghost predicate ForgetsBefore(v5: bool, events: seq<Event>, n: nat)
    requires n <= |events|
  {
    exists k :: 0 <= k < n && ForgetsAt(v5, events, k)
  }

  lemma ForgetsNext(v5: bool, events: seq<Event>, n: nat)
    requires n < |events|
    ensures ForgetsBefore(v5, events, n + 1) <==> ForgetsBefore(v5, events, n) || ForgetsAt(v5, events, n)
  {
    hide ForgetsAt;
  }

  lemma {:induction false} ForgottenBy(v5: bool, events: seq<Event>, n: nat)
    requires n <= |events| && RunOf(v5, events[..n]).Some?
    ensures RunOf(v5, events[..n]).value.forgot <==> ForgetsBefore(v5, events, n)
  {
    hide ForgetsAt, Apply, Inv;
    if n > 0 {
      hide RunOf, ForgetsBefore;
      assert events[..n][..n - 1] == events[..n - 1];
      BeforeLast(v5, events[..n]);
      LastEvent(v5, events[..n], RunOf(v5, events[..n - 1]).value, RunOf(v5, events[..n]).value);
      SameForgetting(v5, events, n, n - 1);
      ForgetsNext(v5, events, n - 1);
      ForgottenBy(v5, events, n - 1);
    }
  }

  lemma SameForgetting(v5: bool, events: seq<Event>, n: nat, k: nat)
    requires k < n <= |events|
    ensures ForgetsAt(v5, events[..n], k) == ForgetsAt(v5, events, k)
  {
    assert events[..n][..k] == events[..k];
  }

  lemma LastEvent(v5: bool, events: seq<Event>, r: Run, t: Run)
    requires |events| > 0 && RunOf(v5, events[..|events| - 1]) == Some(r) && RunOf(v5, events) == Some(t)
    ensures t.forgot <==> r.forgot || ForgetsAt(v5, events, |events| - 1)
  {
    hide Restart, NoneForgotten, LeftInStore, Apply, Inv, RunOf;
    LastInRange(r);
    LastApplied(v5, events, r);
    ForgetsNow(r, events[|events| - 1]);
  }

  lemma BeforeLast(v5: bool, events: seq<Event>)
    requires |events| > 0 && RunOf(v5, events).Some?
    ensures RunOf(v5, events[..|events| - 1]).Some?
  {
    hide Apply, Inv;
  }

  lemma LastApplied(v5: bool, events: seq<Event>, r: Run)
    requires |events| > 0 && RunOf(v5, events[..|events| - 1]) == Some(r) && 0 <= r.client.last <= MAX_MSG_ID
    ensures RunOf(v5, events) == Apply(r, events[|events| - 1])
  {
    hide Apply, Inv;
  }

  ghost predicate ForgetsAt(v5: bool, events: seq<Event>, k: nat)
    requires k < |events|
  {
    var r := RunOf(v5, events[..k]);
    r.Some? && !NoneForgotten(v5, LeftInStore(r.value.client, events[k]))
  }

  lemma ForgetsNow(r: Run, e: Event)
    requires Inv(r) && Apply(r, e).Some?
    ensures Apply(r, e).value.forgot <==> r.forgot || !NoneForgotten(r.client.v5, LeftInStore(r.client, e))
  {
    hide Restart, MessageOk, AssignMsgId, Record, RelRecord, Session.Retry;
  }

  /** In every reachable state the store holds "s-id" (or "s5-id") for exactly the outbound messages and "sc-id" for
      those that wait for PUBCOMP, and for no others unless a restart has forgotten a PUBREL. */
  lemma StoreMatchesSession(v5: bool, events: seq<Event>, id: int)
    requires RunOf(v5, events).Some?
    ensures var r := RunOf(v5, events).value; var c, m := r.client, Lookup(r.client.out, id);
      && (Key(SentKey, v5, id) in c.store <==> m.Some?)
      && (m.Some? && m.value.awaiting == AwaitPubcomp ==> Key(RelKey, false, id) in c.store)
      && (Key(RelKey, false, id) in c.store ==>
            m.Some? && m.value.qos == 2 && (m.value.awaiting == AwaitPubcomp || (v5 && r.forgot)))
      && (m.Some? ==> Holds(v5, c.store[Key(SentKey, v5, id)], m.value))
  {
    hide RestorePacket, Sendable, Apply, Holds;
    var r := RunOf(v5, events).value;
    assert IdPersisted(v5, r.forgot, Lookup(r.client.out, id), r.client.store, id);
  }

  /** In every reachable state a crash and restart, with the keys listed in any order, rebuilds the outbound messages;
      the same ones exactly when no PUBREL is forgotten; and in the order of the list exactly when that is cyclic and
      starts after the first largest gap. */
  lemma CrashRebuildsSession(v5: bool, events: seq<Event>, keys: seq<Key>)
    requires RunOf(v5, events).Some? && Lists(keys, RunOf(v5, events).value.client.store)
    ensures var c := RunOf(v5, events).value.client; var d := Restart(v5, c.store, keys);
      && d.Some? && SameMembers(d.value.out, AllAgain(v5, c.out)) && d.value.store == c.store
      && DistinctIds(d.value.out)
      && (SameMembers(d.value.out, c.out) <==> NoneForgotten(v5, c.out))
      && (d.value.out == AllAgain(v5, c.out) <==> CyclicOrder(c.out) && FollowsLargestGap(c.out))
  {
    hide Apply, Restart, CyclicOrder, FollowsLargestGap, AllAgain, NoneForgotten;
    var r := RunOf(v5, events).value;
    var c := r.client;
    RestartRecovers(v5, r.forgot, c.out, c.store, keys);
    RestartRecoversExactly(v5, r.forgot, c.out, c.store, keys);
    NothingLeftOver(r.forgot, c, Restart(v5, c.store, keys).value);
  }

  lemma NothingLeftOver(forgot: bool, c: Client, d: Client)
    requires Persisted(c.v5, forgot, c.out, c.store) && Recovered(d, c.out, c.store)
    ensures d.store == c.store
  {
    hide InboundFromStore, IdPersisted, InPersisted;
    forall k | k in c.store
      ensures !Orphan(c.out, k)
    {
      assert k.kind == RelKey ==> k == Key(RelKey, false, k.id);
    }
  }

  /** In every reachable state the ids in outboundMsgs are distinct and in 1..65535. */
  lemma IdsStayDistinct(v5: bool, events: seq<Event>)
    requires RunOf(v5, events).Some?
    ensures var c := RunOf(v5, events).value.client; DistinctIds(c.out) && ValidIds(c.out)
  {
    hide Apply;
    var r := RunOf(v5, events).value;
    MembersPersisted(v5, r.forgot, r.client.out, r.client.store);
  }

  /** The packets of one publication, in the order sent. */
  function PacketsOf(log: seq<Sent>, uid: nat): (r: seq<Wire>) {
    if |log| == 0 then []
    else (if log[0].uid == uid then [log[0].wire] else []) + PacketsOf(log[1..], uid)
  }

  /** Packets of the publication, where every PUBLISH after the first packet carries DUP. */
  predicate OwnPackets(ws: seq<Wire>, published: seq<Message>, uid: nat) {
    && (forall i :: 0 <= i < |ws| ==> SentOk(Sent(uid, ws[i]), published))
    && (forall j :: 1 <= j < |ws| && ws[j].Pub? ==> ws[j].publish.dup)
  }

  /** PUBLISH*, then PUBREL*. */
  predicate PubrelsLast(ws: seq<Wire>) {
    forall i, j :: 0 <= i < j < |ws| && ws[j].Pub? ==> ws[i].Pub?
  }

  lemma {:induction false} PacketsOfLog(log: seq<Sent>, published: seq<Message>, uid: nat)
    requires LogOk(log, published) && LogDup(log)
    ensures OwnPackets(PacketsOf(log, uid), published, uid)
    ensures LogOrdered(log) ==> PubrelsLast(PacketsOf(log, uid))
    ensures forall w :: w in PacketsOf(log, uid) ==> Sent(uid, w) in log
  {
    if |log| > 0 {
      var rest := PacketsOf(log[1..], uid);
      assert forall i :: 1 <= i < |log| ==> log[i] == log[1..][i - 1];
      PacketsOfLog(log[1..], published, uid);
      if log[0].uid == uid {
        assert SentOk(log[0], published) && log[0] == Sent(uid, log[0].wire);
        forall j | 0 <= j < |rest| && rest[j].Pub?
          ensures rest[j].publish.dup && (LogOrdered(log) ==> log[0].wire.Pub?)
        {
          assert rest[j] in rest;
          var k :| 0 <= k < |log[1..]| && log[1..][k] == Sent(uid, rest[j]);
          assert log[k + 1] == Sent(uid, rest[j]);
        }
      }
    }
  }

  /** Over any run, crashes included, the packets sent for one publication are its own, with DUP set on every PUBLISH
      after the first, and form PUBLISH* PUBREL* unless a restart has forgotten a PUBREL. */
  lemma NoPublishAfterPubrel(v5: bool, events: seq<Event>, uid: nat)
    requires RunOf(v5, events).Some?
    ensures var r := RunOf(v5, events).value; var ws := PacketsOf(r.log, uid);
      OwnPackets(ws, r.published, uid) && (!r.forgot ==> PubrelsLast(ws))
  {
    var r := RunOf(v5, events).value;
    PacketsOfLog(r.log, r.published, uid);
  }

  /** The record of a QoS 2 message leaves the session only on a PUBCOMP received while it waits for one, on an MQTT 5
      PUBREC that refuses it, or with the whole session. */
  lemma LeavesOnlyOnPubcomp(r: Run, e: Event, m: Message)
    requires Inv(r) && Apply(r, e).Some? && m in r.client.out && m.qos == 2
    requires forall x :: x in Apply(r, e).value.client.out ==> x.uid != m.uid
    ensures
      || e.CleanSession?
      || (m.awaiting == AwaitPubcomp && (e == Pubcomp(m.id) || (e.CrashInPubcomp? && e.id == m.id)))
      || (r.client.v5 && m.awaiting == AwaitPubrec && e == Pubrec(m.id, true))
  {
    hide Apply, OnPuback, OnPubrec, OnPubcomp;
    hide Restart, MessageOk, LogInv, Persisted, Session.Retry, Lookup, IndexOf;
    if !e.CleanSession? { StaysOrEnds(r, e, m); }
  }

  /** The message is listed, whatever it waits for. */
  ghost predicate StillListed(out: seq<Message>, m: Message) {
    exists x :: x in out && x.uid == m.uid
  }

  lemma StaysOrEnds(r: Run, e: Event, m: Message)
    requires Inv(r) && Apply(r, e).Some? && m in r.client.out && m.qos == 2 && !e.CleanSession?
    ensures
      || StillListed(Apply(r, e).value.client.out, m)
      || (m.awaiting == AwaitPubcomp && (e == Pubcomp(m.id) || (e.CrashInPubcomp? && e.id == m.id)))
      || (r.client.v5 && m.awaiting == AwaitPubrec && e == Pubrec(m.id, true))
  {
    hide Restart, MessageOk, AssignMsgId, RelRecord, Record, LogInv, Persisted, Session.Retry;
    hide OnPuback, OnPubrec, OnPubcomp, IndexOf, Lookup, NoneForgotten, StillListed, RemoveAt, HalfRemoved, Lists;
    hide AllAgain;
    var c := r.client;
    assert DistinctIds(c.out) by { IdsDistinct(r.forgot, c); }
    FoundThere(c, m);
    match e {
      case Publish(_, _, _, _, _) =>
        StaysOnAppend(c.out, NewMessage(r, e, AssignMsgId(c.out, c.last)), m);
      case Puback(id) => StaysOnPuback(c, m, id);
      case Pubcomp(id) => StaysOnPubcomp(c, m, id);
      case Pubrec(id, refused) => StaysOnPubrec(c, m, id, refused);
      case Retry(i) =>
        RetryKeepsOut(c, c.out[i]);
        Listed(c.out, m);
      case Crash(keys) =>
        CrashKeepsPersisted(r, keys);
        ListedAgain(c.v5, c.out, Apply(r, e).value.client.out, m);
      case CrashInPubcomp(id, keys) =>
        CrashInPubcompKeepsInv(r, id, keys);
        StaysIfOther(c, m, id);
        if id != m.id {
          ListedAgain(c.v5, RemoveAt(c.out, IndexOf(c.out, id)), Apply(r, e).value.client.out, m);
        }
    }
  }

  lemma Listed(out: seq<Message>, m: Message)
    requires m in out
    ensures StillListed(out, m)
  {
  }

  lemma ListedAgain(v5: bool, out: seq<Message>, now: seq<Message>, m: Message)
    requires m in out && SameMembers(now, AllAgain(v5, out))
    ensures StillListed(now, m)
  {
    hide AllAgain;
    AgainMembers(v5, out);
    assert Again(v5, m) in now;
  }

  lemma FoundThere(c: Client, m: Message)
    requires DistinctIds(c.out) && m in c.out
    ensures FoundAt(c, m)
  {
    LookupByMembership(c.out, m);
  }

  predicate FoundAt(c: Client, m: Message) {
    var i := IndexOf(c.out, m.id); i >= 0 && c.out[i] == m
  }

  lemma IdsDistinct(forgot: bool, c: Client)
    requires Persisted(c.v5, forgot, c.out, c.store)
    ensures DistinctIds(c.out)
  {
  }

  lemma StaysOnAppend(out: seq<Message>, x: Message, m: Message)
    requires m in out
    ensures StillListed(out + [x], m)
  {
    assert m in out + [x];
  }

  lemma RetryKeepsOut(c: Client, m: Message)
    ensures Session.Retry(c, m).0.out == c.out
  {
  }

  lemma StaysOnPuback(c: Client, m: Message, id: int)
    requires FoundAt(c, m) && m.qos == 2
    ensures StillListed(OnPuback(c, id).out, m)
  {
    StaysIfOther(c, m, id);
    assert m in OnPuback(c, id).out;
  }

  lemma StaysOnPubcomp(c: Client, m: Message, id: int)
    requires FoundAt(c, m)
    ensures StillListed(OnPubcomp(c, id).out, m) || (id == m.id && m.awaiting == AwaitPubcomp)
  {
    StaysIfOther(c, m, id);
    if id != m.id || m.awaiting != AwaitPubcomp {
      assert m in OnPubcomp(c, id).out;
    }
  }

  lemma StaysOnPubrec(c: Client, m: Message, id: int, refused: bool)
    requires FoundAt(c, m)
    ensures StillListed(OnPubrec(c, id, refused).0.out, m)
            || (c.v5 && refused && id == m.id && m.awaiting == AwaitPubrec)
  {
    hide OnPubrec, StillListed, IndexOf, FoundAt, RemoveAt;
    StaysIfOther(c, m, id);
    PubrecOut(c, id, refused);
    var i := IndexOf(c.out, id);
    StaysOnAdvance(c, m, i);
    Listed(c.out, m);
    if i >= 0 && id != m.id {
      Listed(RemoveAt(c.out, i), m);
    }
  }

  /** What a PUBREC does to the outbound messages. */
  lemma PubrecOut(c: Client, id: int, refused: bool)
    ensures var i, out := IndexOf(c.out, id), OnPubrec(c, id, refused).0.out;
      && -1 <= i < |c.out|
      && if i < 0 || c.out[i].awaiting != AwaitPubrec then out == c.out
         else out == c.out || out == c.out[i := c.out[i].(awaiting := AwaitPubcomp)]
              || (c.v5 && refused && out == RemoveAt(c.out, i))
  {
    hide RelRecord, RemoveAt;
  }

  lemma StaysOnAdvance(c: Client, m: Message, i: int)
    requires FoundAt(c, m) && -1 <= i < |c.out|
    ensures m in c.out && (i >= 0 ==> StillListed(c.out[i := c.out[i].(awaiting := AwaitPubcomp)], m))
    ensures i == IndexOf(c.out, m.id) ==> c.out[i] == m
  {
    hide IndexOf;
    if i >= 0 {
      var j, out := IndexOf(c.out, m.id), c.out[i := c.out[i].(awaiting := AwaitPubcomp)];
      assert out[j].uid == m.uid && out[j] in out;
    }
  }

  lemma StaysIfOther(c: Client, m: Message, id: int)
    requires FoundAt(c, m)
    ensures id != m.id && IndexOf(c.out, id) >= 0 ==> m in RemoveAt(c.out, IndexOf(c.out, id))
  {
    var i, j := IndexOf(c.out, id), IndexOf(c.out, m.id);
    if id != m.id && i >= 0 {
      var s := RemoveAt(c.out, i);
      assert if j < i then s[j] == m else s[j - 1] == m;
    }
  }
}
