/** MQTTProtocolClient.c over its own data: clients whose records point to shared, counted publications. Each
    handler does to the session it stands for what the function of the same step in Session does. */
module ProtocolClient {
  import opened Bytes
  import opened Session
  import opened Packets
  import opened Publications
  import Properties

  /** ListFindItem with messageIDCompare. */
  method FindItem(rs: seq<Rec>, id: int) returns (k: int)
    ensures -1 <= k < |rs|
    ensures k >= 0 ==> rs[k].id == id && forall j :: 0 <= j < k ==> rs[j].id != id
    ensures k < 0 ==> forall j :: 0 <= j < |rs| ==> rs[j].id != id
  {
    k := 0;
    while k < |rs|
      invariant 0 <= k <= |rs| && forall j :: 0 <= j < k ==> rs[j].id != id
    {
      if rs[k].id == id { return; }
      k := k + 1;
    }
    k := -1;
  }

  /** The record found stands for the message found. */
  lemma Found(pubs: Pubs, rs: seq<Rec>, ms: seq<Message>, id: int, k: int)
    requires ShowsAll(pubs, rs, ms) && -1 <= k < |rs|
    requires k >= 0 ==> rs[k].id == id && forall j :: 0 <= j < k ==> rs[j].id != id
    requires k < 0 ==> forall j :: 0 <= j < |rs| ==> rs[j].id != id
    ensures IndexOf(ms, id) == k && (k >= 0 ==> Shows(pubs, rs[k], ms[k]))
  {
    ShowsIds(pubs, rs, ms);
    var n := IndexOf(ms, id);
    assert n >= 0 ==> rs[n].id == id;
  }

  class State {
    /** state.publications. */
    var publications: Pubs
    /** An address not used so far. */
    var next: nat
    var clients: seq<Conn>
    /** state.pending_writes. */
    var pending: seq<PendingWrite>
    /** The sessions that the clients stand for. */
    ghost var model: seq<Client>

    /** Conservation: the stored publications are those referred to from outbound and inbound records and pending
        QoS 0 writes, with exact counts; and each client stands for its session. */
    ghost predicate Valid()
      reads this
    {
      Conserved(publications, next, clients, pending, model)
    }

    /** Clients with empty sessions; each has the store that it will restore from. */
    constructor (stores: seq<(bool, map<Key, Stored>)>)
      ensures Valid() && publications == map[] && pending == [] && |clients| == |stores|
      ensures forall i :: 0 <= i < |stores| ==> model[i] == Client(stores[i].0, [], [], 0, stores[i].1)
    {
      publications, next, pending := map[], 0, [];
      clients := seq(|stores|, i requires 0 <= i < |stores| => Conn(stores[i].0, [], [], 0, stores[i].1));
      model := seq(|stores|, i requires 0 <= i < |stores| => Client(stores[i].0, [], [], 0, stores[i].1));
      new;
      NoRecords(clients);
    }

    /** MQTTProtocol_storePublication. */
    method StorePublication(topic: seq<byte>, payload: seq<byte>, ghost refs: multiset<nat>) returns (p: nat)
      requires Counted(publications, refs) && forall r :: r in publications ==> r < next
      modifies this`publications, this`next
      ensures p == old(next) && next == p + 1 && publications == old(publications)[p := Publication(topic, payload, 1)]
      ensures Counted(publications, refs + multiset{p}) && SameContents(old(publications), publications)
      ensures forall r :: r in publications ==> r < next
    {
      p := next;
      next := next + 1;
      publications := publications[p := Publication(topic, payload, 1)];
    }

    /** MQTTProtocol_removePublication. */
    method RemovePublication(p: Option<nat>, ghost refs: multiset<nat>)
      requires Counted(publications, refs) && (p.Some? ==> p.value in refs)
      modifies this`publications
      ensures Counted(publications, refs - (if p.Some? then multiset{p.value} else multiset{}))
      ensures SameContents(old(publications), publications) && publications.Keys <= old(publications.Keys)
    {
      if p.Some? {
        var pub := publications[p.value];
        publications := publications[p.value := pub.(refcount := pub.refcount - 1)];
        if publications[p.value].refcount == 0 {
          publications := publications - {p.value};
        }
      }
    }

    /** ListRemove(&state.publications, p): the publication goes whatever its count, so it must have one reference. */
    method DropPublication(p: nat, ghost refs: multiset<nat>)
      requires Counted(publications, refs) && refs[p] == 1
      modifies this`publications
      ensures Counted(publications, refs - multiset{p})
      ensures SameContents(old(publications), publications) && publications.Keys <= old(publications.Keys)
    {
      publications := publications - {p};
    }

    // ----- the outbound half -----

    /** The end of an outbound exchange. */
    method Finish(i: int, k: int)
      requires Valid() && 0 <= i < |clients| && 0 <= k < |clients[i].out|
      modifies this
      ensures Valid() && |clients| == old(|clients|) && pending == old(pending)
      ensures 0 <= k < |old(model[i]).out| && model == old(model)[i := Complete(old(model[i]), k)]
    {
      hide Counted, Total, RefsOf;
      ghost var pubs, cs := publications, clients;
      OutRefHeld(cs, pending, i, k);
      RemovePublication(clients[i].out[k].publish, Total(clients, pending));
      clients := clients[i := Completed(clients[i], k)];
      OutGone(pubs, publications, next, cs, pending, model, i, k);
      model := model[i := Complete(model[i], k)];
    }

    /** MQTTProtocol_handlePubacks. */
    method HandlePuback(i: int, id: int)
      requires Valid() && 0 <= i < |clients|
      modifies this
      ensures Valid() && |clients| == old(|clients|) && pending == old(pending)
      ensures model == old(model)[i := OnPuback(old(model[i]), id)]
    {
      hide Counted, Total, RefsOf, IndexOf;
      var k := FindItem(clients[i].out, id);
      Found(publications, clients[i].out, model[i].out, id, k);
      if k >= 0 && clients[i].out[k].qos == 1 {
        Finish(i, k);
      } else {
        assert model == model[i := model[i]];
      }
    }

    /** MQTTProtocol_handlePubcomps. */
    method HandlePubcomp(i: int, id: int)
      requires Valid() && 0 <= i < |clients|
      modifies this
      ensures Valid() && |clients| == old(|clients|) && pending == old(pending)
      ensures model == old(model)[i := OnPubcomp(old(model[i]), id)]
    {
      hide Counted, Total, RefsOf, IndexOf;
      var k := FindItem(clients[i].out, id);
      Found(publications, clients[i].out, model[i].out, id, k);
      if k >= 0 && clients[i].out[k].qos == 2 && clients[i].out[k].awaiting == AwaitPubcomp {
        Finish(i, k);
      } else {
        assert model == model[i := model[i]];
      }
    }

    /** MQTTProtocol_handlePubrecs. */
    method HandlePubrec(i: int, id: int, refused: bool) returns (sent: seq<Wire>)
      requires Valid() && 0 <= i < |clients|
      modifies this
      ensures Valid() && |clients| == old(|clients|) && pending == old(pending)
      ensures model == old(model)[i := OnPubrec(old(model[i]), id, refused).0]
      ensures sent == OnPubrec(old(model[i]), id, refused).1
    {
      hide Counted, Total, RefsOf, IndexOf;
      var k := FindItem(clients[i].out, id);
      Found(publications, clients[i].out, model[i].out, id, k);
      sent := [];
      if k < 0 || clients[i].out[k].qos != 2 || clients[i].out[k].awaiting != AwaitPubrec {
        assert model == model[i := model[i]];
      } else if clients[i].v5 && refused {
        Finish(i, k);
      } else {
        var c := clients[i];
        sent := [Ack(PUBREL, false, id)];
        var r := c.out[k].(awaiting := AwaitPubcomp);
        c := c.(store := c.store[Key(RelKey, false, id) := Stored(RelRecord(id), r.uid)], out := c.out[k := r]);
        Advanced(publications, clients[i], model[i], k, r);
        SameRefs(publications, next, clients, pending, model, i, c, OnPubrec(model[i], id, refused).0);
        model := model[i := OnPubrec(model[i], id, refused).0];
        clients := clients[i := c];
      }
    }

    /** A publication to share is one with the same contents. */
    ghost predicate Shareable(m: Message, shared: Option<(int, int)>)
      requires Valid()
      reads this
    {
      shared.Some? ==>
        && 0 <= shared.value.0 < |clients| && 0 <= shared.value.1 < |clients[shared.value.0].out|
        && Represents(publications, clients[shared.value.0], model[shared.value.0])
        && var o := model[shared.value.0].out[shared.value.1]; o.topic == m.topic && o.payload == m.payload
    }

    /** MQTTProtocol_startPublish. For QoS 1 and 2 a record is added, with a new publication or one that an outbound
        record (of client j, at k) already holds; an interrupted QoS 0 write keeps its publication until it is done. */
    method StartPublish(i: int, m: Message, shared: Option<(int, int)>, interrupted: bool) returns (sent: seq<Wire>)
      requires Valid() && 0 <= i < |clients|
      requires m.awaiting == if m.qos == 2 then AwaitPubrec else Unset
      requires Shareable(m, shared)
      modifies this
      ensures Valid() && |clients| == old(|clients|)
      ensures m.qos > 0 ==> model == old(model)[i := Session.StartPublish(old(model[i]), m).0]
      ensures m.qos > 0 ==> sent == [Session.StartPublish(old(model[i]), m).1]
      ensures m.qos <= 0 ==> model == old(model) && sent == [Pub(ToPublish(m, false), m.uid)]
      ensures m.qos > 0 || !interrupted ==> pending == old(pending)
      ensures m.qos <= 0 && interrupted ==>
        && |pending| == |old(pending)| + 1 && pending == old(pending) + [PendingWrite(i, pending[|old(pending)|].p)]
        && Stores(m, pending[|old(pending)|].p)
    {
      if m.qos > 0 {
        var p := Hold(m, shared);
        Append(i, m, p, old(publications), old(next));
        sent := [Pub(ToPublish(m, false), m.uid)];
      } else {
        sent := [Pub(ToPublish(m, false), m.uid)];
        if interrupted {
          var _ := StoreQoS0(i, m);
        }
      }
    }

    /** The publication part of MQTTProtocol_createMessage. */
    method Hold(m: Message, shared: Option<(int, int)>) returns (p: nat)
      requires Valid()
      requires Shareable(m, shared)
      modifies this`publications, this`next
      ensures Counted(publications, Total(clients, pending) + multiset{p}) && NotInbound(clients, p)
      ensures SameContents(old(publications), publications) && old(next) <= next
      ensures forall r :: r in publications ==> r < next
      ensures p in publications && publications[p].topic == m.topic && publications[p].payload == m.payload
    {
      hide Total, RefsOf;
      if shared.None? {
        FreshNotInbound(publications, next, clients, pending, model);
        p := StorePublication(m.topic, m.payload, Total(clients, pending));
      } else {
        var (j, k) := shared.value;
        assert Represents(publications, clients[j], model[j]);
        assert Shows(publications, clients[j].out[k], model[j].out[k]);
        p := clients[j].out[k].publish.value;
        OutboundNotInbound(publications, next, clients, pending, model, j, k);
        publications := publications[p := publications[p].(refcount := publications[p].refcount + 1)];
      }
    }

    /** The record is put at the end of outboundMsgs, and the packet persisted and sent. */
    method Append(i: int, m: Message, p: nat, ghost pubs: Pubs, ghost was: nat)
      requires 0 <= i < |clients| && Conserved(pubs, was, clients, pending, model) && was <= next
      requires Counted(publications, Total(clients, pending) + multiset{p}) && NotInbound(clients, p)
      requires SameContents(pubs, publications) && forall r :: r in publications ==> r < next
      requires p in publications && publications[p].topic == m.topic && publications[p].payload == m.payload
      modifies this`clients, this`model
      ensures Valid() && |clients| == old(|clients|)
      ensures model == old(model)[i := Session.StartPublish(old(model[i]), m).0]
    {
      hide Counted, Total, RefsOf;
      var c := clients[i];
      var r := Rec(m.id, m.qos, m.retain, m.properties, m.awaiting, m.uid, Some(p));
      c := c.(out := c.out + [r], last := m.id,
              store := c.store[Key(SentKey, c.v5, m.id) := Stored(Record(c.v5, ToPublish(m, false)), m.uid)]);
      ghost var s := Session.StartPublish(model[i], m).0;
      assert Represents(pubs, clients[i], model[i]);
      assert c.out == clients[i].out[..|clients[i].out|] + [r] + clients[i].out[|clients[i].out|..];
      assert s.out == model[i].out[..|clients[i].out|] + [m] + model[i].out[|clients[i].out|..];
      assert Shows(publications, r, m) && RefOf(r) == multiset{p};
      OutCame(pubs, publications, was, next, clients, pending, model, i, |clients[i].out|, r, c, s);
      clients := clients[i := c];
      model := model[i := s];
    }

    /** The retry of one record. */
    method RetryOne(i: int, k: int) returns (sent: seq<Wire>)
      requires Valid() && 0 <= i < |clients| && 0 <= k < |model[i].out|
      modifies this`clients, this`model
      ensures Valid() && |clients| == old(|clients|) && clients[i].out == old(clients[i].out)
      ensures model == old(model)[i := Retry(old(model[i]), old(model[i].out[k])).0]
      ensures sent == Retry(old(model[i]), old(model[i].out[k])).1
      ensures model[i].out == old(model[i].out)
    {
      hide Counted, Total, RefsOf;
      var c := clients[i];
      assert Represents(publications, c, model[i]);
      assert Shows(publications, c.out[k], model[i].out[k]);
      var m := MessageOf(publications, c.out[k]);
      MessageShown(publications, c.out[k], model[i].out[k]);
      sent := [];
      if m.qos == 1 || (m.qos == 2 && m.awaiting == AwaitPubrec) {
        var p := ToPublish(m, true);
        sent := [Pub(p, m.uid)];
        c := c.(store := c.store[Key(SentKey, c.v5, m.id) := Stored(Record(c.v5, p), m.uid)]);
      } else if m.qos != 0 && m.awaiting == AwaitPubcomp {
        sent := [Ack(PUBREL, false, m.id)];
        c := c.(store := c.store[Key(RelKey, false, m.id) := Stored(RelRecord(m.id), m.uid)]);
      }
      ghost var d := Retry(model[i], model[i].out[k]).0;
      SameRefs(publications, next, clients, pending, model, i, c, d);
      clients := clients[i := c];
      model := model[i := d];
    }

    /** MQTTProtocol_retries: the records in order, as long as nothing is stacked up on the socket; due tells
        which have waited long enough, and room how many are reached before a write is left pending. */
    method Retries(i: int, due: seq<bool>, room: nat) returns (sent: seq<Wire>)
      requires Valid() && 0 <= i < |clients| && |due| == |model[i].out|
      modifies this`clients, this`model
      ensures Valid() && |clients| == old(|clients|)
      ensures var n := if room < |due| then room else |due|;
        model == old(model)[i := RetryEach(old(model[i]), due, n).0] && sent == RetryEach(old(model[i]), due, n).1
    {
      hide Conserved, Retry;
      var k := 0;
      sent := [];
      SameLength(i);
      ghost var s := model[i];
      while k < |clients[i].out| && k < room
        invariant Valid() && |clients| == old(|clients|) && |model| == |clients| && model[i].out == s.out
        invariant 0 <= k <= |clients[i].out| == |s.out| && k <= room
        invariant RetryEach(s, due, k).0.out == s.out && sent == RetryEach(s, due, k).1
        invariant model == old(model)[i := RetryEach(s, due, k).0]
      {
        if due[k] {
          var more := RetryOne(i, k);
          sent := sent + more;
        }
        k := k + 1;
      }
    }

    lemma SameLength(i: int)
      requires Valid() && 0 <= i < |clients|
      ensures |model| == |clients| && |clients[i].out| == |model[i].out| && |clients[i].inb| == |model[i].inb|
      ensures model == model[i := model[i]]
    {
      assert Represents(publications, clients[i], model[i]);
    }

    // ----- the inbound half -----

    /** MQTTPacket_Factory persists a QoS 2 PUBLISH before it is handled. */
    method Persist(i: int, p: Publish, uid: nat)
      requires Valid() && 0 <= i < |clients|
      modifies this`clients, this`model
      ensures Valid() && |clients| == old(|clients|) && clients[i].inb == old(clients[i].inb)
      ensures clients[i].v5 == old(clients[i].v5)
      ensures model == old(model)[i := PersistReceived(old(model[i]), p, uid)]
    {
      hide Counted, Total, RefsOf;
      SameLength(i);
      if p.qos == 2 {
        var c := clients[i];
        c := c.(store := c.store[Key(ReceivedKey, c.v5, p.id) := Stored(Record(c.v5, p), uid)]);
        assert Represents(publications, clients[i], model[i]);
        ghost var d := PersistReceived(model[i], p, uid);
        SameRefs(publications, next, clients, pending, model, i, c, d);
        clients := clients[i := c];
        model := model[i := d];
      }
    }

    /** The publication of a QoS 2 PUBLISH is stored, and that of the record it replaces, if any, released. */
    method StoreReceived(i: int, k: int, p: Publish, uid: nat) returns (r: Rec)
      requires Valid() && 0 <= i < |clients| && -1 <= k < |clients[i].inb|
      modifies this`publications, this`next
      ensures next == old(next) + 1 && r.publish == Some(old(next)) && Shows(publications, r, Received(p, uid))
      ensures Counted(publications, Total(clients, pending) + RefOf(r) - InbLost(clients[i], k))
      ensures SameContents(old(publications), publications) && forall q :: q in publications ==> q < next
    {
      hide Conserved, Counted, Total, RefsOf, RefOf, Shows, SameContents;
      ghost var t := Total(clients, pending);
      Known();
      var a := StorePublication(p.topic, p.payload, t);
      r := Rec(p.id, p.qos, p.retain, p.properties, AwaitPubrel, uid, Some(a));
      if k >= 0 {
        ReleaseReplaced(i, k, a, p);
        NothingLost(t, clients[i].inb[k]);
        NewKept(old(publications), publications, a, p, r, uid, RefOf(clients[i].inb[k]), t);
      } else {
        assert t + multiset{a} - multiset{} == t + multiset{a};
        SameContentsSelf(publications);
        NewKept(old(publications), publications, a, p, r, uid, multiset{}, t);
      }
    }

    method ReleaseReplaced(i: int, k: int, a: nat, p: Publish)
      requires 0 <= i < |clients| && 0 <= k < |clients[i].inb|
      requires Counted(publications, Total(clients, pending) + multiset{a})
      modifies this`publications
      ensures RefOf(clients[i].inb[k]) <= Total(clients, pending)
      ensures Counted(publications, Total(clients, pending) + multiset{a} - RefOf(clients[i].inb[k]))
      ensures SameContents(old(publications), publications) && publications.Keys <= old(publications.Keys)
    {
      hide Counted, Total, RefsOf, SameContents;
      InbRefHeld(clients, pending, i, k);
      RemovePublication(clients[i].inb[k].publish, Total(clients, pending) + multiset{a});
    }

    /** The publication and the record of a QoS 2 PUBLISH, in the place of one with the same id if there is one. */
    method Receive(i: int, p: Publish, uid: nat) returns (k: int)
      requires Valid() && 0 <= i < |clients|
      modifies this
      ensures Valid() && |clients| == old(|clients|) && clients[i].v5 == old(clients[i].v5) && pending == old(pending)
      ensures k == IndexOf(old(model[i]).inb, p.id)
      ensures 0 <= (if k < 0 then old(|clients[i].inb|) else k) < |clients[i].inb|
      ensures clients[i].inb[if k < 0 then old(|clients[i].inb|) else k].publish == Some(old(next))
      ensures model == old(model)[i := old(model[i]).(inb := if k < 0 then old(model[i]).inb + [Received(p, uid)]
                                                           else old(model[i]).inb[k := Received(p, uid)])]
    {
      hide Counted, Total, RefsOf, IndexOf;
      ghost var pubs, n := publications, next;
      SameLength(i);
      k := FindItem(clients[i].inb, p.id);
      Found(publications, clients[i].inb, model[i].inb, p.id, k);
      var r := StoreReceived(i, k, p, uid);
      InbCame(pubs, publications, n, next, clients, pending, model, i, k, r, Received(p, uid));
      var m := Received(p, uid);
      model := model[i := model[i].(inb := if k < 0 then model[i].inb + [m] else model[i].inb[k := m])];
      clients := clients[i := InbPut(clients[i], k, r)];
    }

    /** The publication of an inbound record is passed on and released at once (MQTT 5). */
    method PassOn(i: int, k: int)
      requires Valid() && 0 <= i < |clients| && clients[i].v5 && 0 <= k < |clients[i].inb|
      requires clients[i].inb[k].publish.Some?
      modifies this`publications, this`clients
      ensures Valid() && |clients| == old(|clients|)
    {
      hide Counted, Total, RefsOf;
      ghost var pubs, cs := publications, clients;
      InbRefAlone(clients, pending, i, k);
      SameLength(i);
      DropPublication(clients[i].inb[k].publish.value, Total(clients, pending));
      var c := clients[i].(inb := clients[i].inb[k := clients[i].inb[k].(publish := None)]);
      clients := clients[i := c];
      InbDropped(pubs, publications, next, cs, pending, model, i, k, c);
    }

    /** MQTTPacket_Factory's persisting and MQTTProtocol_handlePublishes. */
    method HandlePublish(i: int, p: Publish, uid: nat, clear: bool)
      returns (sent: seq<Wire>, delivered: seq<Wire>, error: bool)
      requires Valid() && 0 <= i < |clients|
      modifies this
      ensures Valid() && |clients| == old(|clients|) && pending == old(pending)
      ensures Outcome(model[i], sent, delivered, error) == OnPublish(old(model[i]), p, uid, clear)
      ensures model == old(model)[i := model[i]]
    {
      hide Conserved, IndexOf;
      SameLength(i);
      Persist(i, p, uid);
      sent, delivered, error := [], [], false;
      if p.qos == 0 {
        delivered := [Pub(p, uid)];
      } else if !clear {
        error := true;
      } else if p.qos == 1 {
        sent := [Ack(PUBACK, false, p.id)];
        delivered := [Pub(p, uid)];
      } else if p.qos == 2 {
        SameLength(i);
        SameVersion(i);
        var n := |clients[i].inb|;
        var k := Receive(i, p, uid);
        sent := [Ack(PUBREC, false, p.id)];
        if clients[i].v5 && k < 0 {
          delivered := [Pub(p, uid)];
          PassOn(i, n);
        }
      }
    }

    lemma Known()
      requires Valid()
      ensures Counted(publications, Total(clients, pending)) && (forall r :: r in publications ==> r < next)
      ensures forall r :: r in Total(clients, pending) ==> r in publications
    {
    }

    lemma SameVersion(i: int)
      requires Valid() && 0 <= i < |clients|
      ensures |model| == |clients| && clients[i].v5 == model[i].v5
    {
      assert Represents(publications, clients[i], model[i]);
    }

    /** The record of an inbound exchange goes, with its publication and its stored packet. */
    method Release(i: int, k: int, id: int)
      requires Valid() && 0 <= i < |clients| && 0 <= k < |clients[i].inb|
      modifies this`publications, this`clients, this`model
      ensures Valid() && |clients| == old(|clients|) && 0 <= k < |old(model[i]).inb|
      ensures model == old(model)[i := old(model[i]).(inb := RemoveAt(old(model[i]).inb, k),
          store := old(model[i]).store - ReceivedKeys(id))]
    {
      hide Counted, Total, RefsOf;
      SameLength(i);
      ghost var pubs, cs := publications, clients;
      InbRefAlone(clients, pending, i, k);
      var r := clients[i].inb[k];
      if r.publish.Some? {
        DropPublication(r.publish.value, Total(clients, pending));
      }
      var c := clients[i].(inb := clients[i].inb[..k] + clients[i].inb[k + 1..],
          store := clients[i].store - ReceivedKeys(id));
      ghost var s := model[i].(inb := RemoveAt(model[i].inb, k), store := c.store);
      assert Represents(pubs, clients[i], model[i]);
      NothingLost(Total(cs, pending), r);
      clients := clients[i := c];
      InbGone(pubs, publications, next, cs, pending, model, i, k, c, s);
      model := model[i := s];
    }

    /** MQTTProtocol_handlePubrels. */
    method HandlePubrel(i: int, id: int, dup: bool, clear: bool)
      returns (sent: seq<Wire>, delivered: seq<Wire>, error: bool)
      requires Valid() && 0 <= i < |clients|
      modifies this
      ensures Valid() && |clients| == old(|clients|) && pending == old(pending)
      ensures Outcome(model[i], sent, delivered, error) == OnPubrel(old(model[i]), id, dup, clear)
      ensures model == old(model)[i := model[i]]
    {
      hide Counted, Total, RefsOf, IndexOf;
      SameLength(i);
      var k := FindItem(clients[i].inb, id);
      assert Represents(publications, clients[i], model[i]);
      Found(publications, clients[i].inb, model[i].inb, id, k);
      sent, delivered, error := [], [], false;
      if k < 0 {
        if dup {
          if !clear { error := true; } else { sent := [Ack(PUBCOMP, false, id)]; }
        }
      } else {
        var r := clients[i].inb[k];
        if r.qos == 2 && r.awaiting == AwaitPubrel {
          if !clear {
            error := true;
          } else {
            sent := [Ack(PUBCOMP, false, id)];
            if !clients[i].v5 {
              MessageShown(publications, r, model[i].inb[k]);
              delivered := [Pub(ToPublish(MessageOf(publications, r), false), r.uid)];
            }
            Release(i, k, id);
          }
        }
      }
    }

    // ----- cleaning a session -----

    /** MQTTProtocol_emptyMessageList: the publications of a list's records are released. */
    method ReleaseAll(rs: seq<Rec>, ghost refs: multiset<nat>)
      requires Counted(publications, refs) && RefsOf(rs) <= refs
      modifies this`publications
      ensures Counted(publications, refs - RefsOf(rs))
      ensures SameContents(old(publications), publications) && publications.Keys <= old(publications.Keys)
    {
      hide Counted;
      NoRefs();
      assert refs - multiset{} == refs;
      for k := 0 to |rs|
        invariant Counted(publications, refs - RefsOf(rs[..k]))
        invariant SameContents(old(publications), publications) && publications.Keys <= old(publications.Keys)
      {
        OneMore(rs, k, refs);
        RemovePublication(rs[k].publish, refs - RefsOf(rs[..k]));
      }
      assert rs[..|rs|] == rs;
    }

    /** MQTTClient_cleanSession. */
    method CleanSession(i: int)
      requires Valid() && 0 <= i < |clients|
      modifies this
      ensures Valid() && |clients| == old(|clients|) && pending == old(pending)
      ensures model == old(model)[i := Client(old(model[i]).v5, [], [], 0, map[])]
    {
      hide Counted, Total, RefsOf;
      SameLength(i);
      ghost var pubs, cs := publications, clients;
      ListHeld(clients, pending, i);
      ReleaseAll(clients[i].inb, Total(clients, pending));
      Emptied(pubs, publications, next, cs, pending, model, i, cs[i].(inb := []), model[i].(inb := []),
          RefsOf(cs[i].inb));
      clients := clients[i := clients[i].(inb := [])];
      model := model[i := model[i].(inb := [])];
      pubs, cs := publications, clients;
      ListHeld(clients, pending, i);
      ReleaseAll(clients[i].out, Total(clients, pending));
      Emptied(pubs, publications, next, cs, pending, model, i, cs[i].(out := []), model[i].(out := []),
          RefsOf(cs[i].out));
      clients := clients[i := clients[i].(out := [])];
      model := model[i := model[i].(out := [])];
      var c := clients[i].(store := map[], last := 0);
      assert Represents(publications, clients[i], model[i]);
      SameRefs(publications, next, clients, pending, model, i, c, model[i].(store := map[], last := 0));
      clients := clients[i := c];
      model := model[i := model[i].(store := map[], last := 0)];
    }

    // ----- restoring -----

    /** A restored PUBLISH becomes an inbound record. */
    method RestoreInbound(i: int, m: Message)
      requires Valid() && 0 <= i < |clients|
      modifies this`publications, this`next, this`clients, this`model
      ensures Valid() && |clients| == old(|clients|)
      ensures model == old(model)[i := old(model[i]).(inb := old(model[i]).inb + [m])]
    {
      hide Counted, Total, RefsOf;
      ghost var pubs, n, t := publications, next, Total(clients, pending);
      var a := StorePublication(m.topic, m.payload, t);
      var r := Rec(m.id, m.qos, m.retain, m.properties, m.awaiting, m.uid, Some(a));
      assert t + RefOf(r) - InbLost(clients[i], -1) == t + multiset{a};
      InbCame(pubs, publications, n, next, clients, pending, model, i, -1, r, m);
      clients := clients[i := InbPut(clients[i], -1, r)];
      model := model[i := model[i].(inb := model[i].inb + [m])];
    }

    /** A restored PUBLISH becomes an outbound record, in the order of the message ids. */
    method RestoreOutbound(i: int, m: Message)
      requires Valid() && 0 <= i < |clients|
      modifies this`publications, this`next, this`clients, this`model
      ensures Valid() && |clients| == old(|clients|)
      ensures model == old(model)[i := old(model[i]).(out := InsertInOrder(old(model[i]).out, m))]
    {
      hide Counted, Total, RefsOf, InsertInOrder;
      ghost var pubs, n := publications, next;
      assert Represents(publications, clients[i], model[i]);
      ShowsIds(publications, clients[i].out, model[i].out);
      var k := InsertIndex(clients[i].out, m.id);
      InsertIs(model[i].out, m, k);
      var p := Hold(m, None);
      var r := Rec(m.id, m.qos, m.retain, m.properties, m.awaiting, m.uid, Some(p));
      var c := clients[i].(out := clients[i].out[..k] + [r] + clients[i].out[k..]);
      ghost var s := model[i].(out := InsertInOrder(model[i].out, m));
      assert Shows(publications, r, m) && RefOf(r) == multiset{p};
      OutCame(pubs, publications, n, next, clients, pending, model, i, k, r, c, s);
      clients := clients[i := c];
      model := model[i := s];
    }

    /** A bad or orphaned record is removed from the store. */
    method Discard(i: int, key: Key)
      requires Valid() && 0 <= i < |clients|
      modifies this`clients, this`model
      ensures Valid() && |clients| == old(|clients|)
      ensures model == old(model)[i := old(model[i]).(store := old(model[i]).store - {key})]
    {
      hide Counted, Total, RefsOf;
      assert Represents(publications, clients[i], model[i]);
      var c := clients[i].(store := clients[i].store - {key});
      ghost var s := model[i].(store := model[i].store - {key});
      SameRefs(publications, next, clients, pending, model, i, c, s);
      clients := clients[i := c];
      model := model[i := s];
    }

    /** One key of MQTTPersistence_restore. */
    method RestoreOne(i: int, key: Key) returns (ok: bool)
      requires Valid() && 0 <= i < |clients|
      modifies this`publications, this`next, this`clients, this`model
      ensures Valid() && |clients| == old(|clients|)
      ensures RestoreKey(old(model[i]), key) == if ok then Some(model[i]) else None
      ensures model == old(model)[i := model[i]]
    {
      hide Conserved, RestorePacket, InsertInOrder;
      SameSession(i);
      var c := clients[i];
      ok := true;
      if key.kind == OtherKey || key !in c.store { return; }
      if key.v5 && !c.v5 {
        ok := false;
        return;
      }
      var pack := RestorePacket(key.v5, c.store[key].bytes);
      match pack {
        case None => Discard(i, key);
        case Some(PublishPacket(p)) =>
          var m := Restored(p, c.store[key].uid);
          if key.kind == ReceivedKey {
            RestoreInbound(i, m.(awaiting := AwaitPubrel));
          } else if key.kind == SentKey {
            var rel := Key(RelKey, c.v5, p.id) in c.store;
            RestoreOutbound(i, if rel then m.(awaiting := AwaitPubcomp) else m);
          }
        case Some(AckPacket(_, _, id)) =>
          if key.kind == RelKey && Key(SentKey, c.v5, id) !in c.store {
            Discard(i, key);
          }
      }
    }

    lemma SameSession(i: int)
      requires Valid() && 0 <= i < |clients|
      ensures |model| == |clients| && clients[i].v5 == model[i].v5 && clients[i].store == model[i].store
      ensures model == model[i := model[i]]
    {
      assert Represents(publications, clients[i], model[i]);
    }

    /** MQTTPersistence_wrapMsgID: the scan for the largest gap, and the rotation. */
    method Wrap(i: int)
      requires Valid() && 0 <= i < |clients|
      modifies this`clients, this`model
      ensures Valid() && |clients| == old(|clients|)
      ensures model == old(model)[i := old(model[i]).(out := WrapMsgId(old(model[i]).out))]
    {
      hide Counted, Total, RefsOf;
      var c := clients[i];
      ghost var ms := model[i].out;
      assert Represents(publications, c, model[i]);
      ShowsIds(publications, c.out, ms);
      var best := 0;
      if |c.out| > 0 {
        var gap := MAX_MSG_ID - c.out[|c.out| - 1].id + c.out[0].id;
        var n := 1;
        while n < |c.out|
          invariant 1 <= n <= |c.out| && 0 <= best < |c.out|
          invariant WrapPoint(ms, n, gap, best) == WrapPoint(ms, 1, WrapGap(ms), 0)
        {
          var g := c.out[n].id - c.out[n - 1].id;
          if g > gap {
            gap := g;
            best := n;
          }
          n := n + 1;
        }
      }
      var out := c.out[best..] + c.out[..best];
      Rotated(publications, c.out, ms, best);
      ghost var s := model[i].(out := WrapMsgId(ms));
      assert s.out == ms[best..] + ms[..best];
      SameRefs(publications, next, clients, pending, model, i, c.(out := out), s);
      clients := clients[i := c.(out := out)];
      model := model[i := s];
    }

    /** MQTTPersistence_restore, over the keys in the order in which the store lists them. */
    method Restore(i: int, keys: seq<Key>) returns (ok: bool)
      requires Valid() && 0 <= i < |clients|
      modifies this`publications, this`next, this`clients, this`model
      ensures Valid() && |clients| == old(|clients|)
      ensures ok == RestoreKeys(old(model[i]), keys).Some?
      ensures ok ==>
        var d := RestoreKeys(old(model[i]), keys).value; model == old(model)[i := d.(out := WrapMsgId(d.out))]
    {
      hide Conserved, RestoreKey, WrapMsgId;
      SameSession(i);
      ghost var start, all := model[i], model;
      var k := 0;
      ok := true;
      while ok && k < |keys|
        invariant 0 <= k <= |keys| && Valid() && |clients| == old(|clients|) == |model| == |all|
        invariant model == all[i := model[i]]
        invariant ok ==> RestoreKeys(start, keys) == RestoreKeys(model[i], keys[k..])
        invariant !ok ==> RestoreKeys(start, keys) == None
        decreases |keys| - k, ok
      {
        ok := RestoreOne(i, keys[k]);
        if ok {
          k := k + 1;
        }
      }
      if ok {
        Wrap(i);
      }
    }

    // ----- QoS 0 writes -----

    /** The publication is stored, with the contents of the message. */
    predicate Stores(m: Message, p: nat)
      reads this`publications
    {
      p in publications && publications[p].topic == m.topic && publications[p].payload == m.payload
    }

    /** MQTTProtocol_storeQoS0. */
    method StoreQoS0(socket: int, m: Message) returns (p: nat)
      requires Valid()
      modifies this`publications, this`next, this`pending
      ensures Valid() && pending == old(pending) + [PendingWrite(socket, p)] && Stores(m, p) && p !in old(publications)
    {
      hide RefsOf, AllRefs, PendingRefs, Counted;
      ghost var pubs, n, ps := publications, next, pending;
      FreshNotInbound(publications, next, clients, pending, model);
      p := StorePublication(m.topic, m.payload, Total(clients, pending));
      pending := pending + [PendingWrite(socket, p)];
      PendingAdd(ps, PendingWrite(socket, p));
      assert Total(clients, pending) == Total(clients, ps) + multiset{p};
      PendingSteps(pubs, publications, n, next, clients, ps, pending, model);
    }

    /** MQTTProtocol_checkPendingWrites: the publications of the writes that are done are released. */
    method CheckPendingWrites(clear: set<int>)
      requires Valid()
      modifies this`publications, this`pending
      ensures Valid() && pending == StillPending(old(pending), clear)
    {
      hide Conserved;
      var k := 0;
      ghost var was := pending;
      ghost var done := 0;
      while k < |pending|
        invariant Valid() && 0 <= done <= |was| && 0 <= k <= |pending|
        invariant pending[..k] == StillPending(was[..done], clear) && pending[k..] == was[done..]
        decreases |pending| - k
      {
        assert pending[k] == was[done] && was[..done + 1][..done] == was[..done];
        ghost var before := pending;
        if pending[k].socket in clear {
          ReleasePending(k);
          assert pending[..k] == before[..k] && pending[k..] == before[k + 1..] == was[done + 1..];
        } else {
          k := k + 1;
          assert pending[..k] == before[..k - 1] + [was[done]];
        }
        done := done + 1;
      }
      assert was[..done] == was && pending[..k] == pending;
    }

    method ReleasePending(k: int)
      requires Valid() && 0 <= k < |pending|
      modifies this`publications, this`pending
      ensures Valid() && pending == old(pending)[..k] + old(pending)[k + 1..]
    {
      hide RefsOf, AllRefs, PendingRefs, Counted;
      ghost var pubs, ps := publications, pending;
      PendingSplit(ps, k);
      var p := pending[k].p;
      assert p in Total(clients, ps);
      RemovePublication(Some(p), Total(clients, pending));
      pending := pending[..k] + pending[k + 1..];
      PendingLess(AllRefs(clients), PendingRefs(pending), p);
      assert Total(clients, pending) == Total(clients, ps) - multiset{p};
      PendingSteps(pubs, publications, next, next, clients, ps, pending, model);
    }
  }

  /** The writes that are not done, in order. */
  function StillPending(ps: seq<PendingWrite>, clear: set<int>): seq<PendingWrite> {
    if |ps| == 0 then []
    else
      var rest := StillPending(ps[..|ps| - 1], clear);
      if ps[|ps| - 1].socket in clear then rest else rest + [ps[|ps| - 1]]
  }

  lemma PendingLess(a: multiset<nat>, b: multiset<nat>, p: nat)
    ensures a + b == a + (b + multiset{p}) - multiset{p}
  {
  }

  lemma OutRefHeld(cs: seq<Conn>, ps: seq<PendingWrite>, i: int, k: int)
    requires 0 <= i < |cs| && 0 <= k < |cs[i].out|
    ensures RefOf(cs[i].out[k]) <= Total(cs, ps)
    ensures cs[i].out[k].publish.Some? ==> cs[i].out[k].publish.value in Total(cs, ps)
  {
    RefsMember(cs[i].out, k);
    TotalUpdate(cs, ps, i, cs[i]);
    hide RefsOf, AllRefs;
    assert RefOf(cs[i].out[k]) <= ConnRefs(cs[i]);
    assert cs[i].out[k].publish.Some? ==> cs[i].out[k].publish.value in RefOf(cs[i].out[k]);
  }

  /** A record's next packet changes on both sides. */
  lemma Advanced(pubs: Pubs, c: Conn, s: Client, k: int, r: Rec)
    requires Represents(pubs, c, s) && 0 <= k < |c.out| && r == c.out[k].(awaiting := r.awaiting)
    ensures RefsOf(c.out[k := r]) == RefsOf(c.out)
    ensures ShowsAll(pubs, c.out[k := r], s.out[k := s.out[k].(awaiting := r.awaiting)]) && Full(c.out[k := r])
  {
    hide RefsOf;
    RefsUpdate(c.out, k, r);
    RefsMember(c.out, k);
    assert Shows(pubs, c.out[k], s.out[k]);
    ShowsUpdate(pubs, c.out, s.out, k, r, s.out[k].(awaiting := r.awaiting));
  }

  /** The retries of the first k records. */
  function RetryEach(c: Client, due: seq<bool>, k: nat): (Client, seq<Wire>)
    requires k <= |c.out| && k <= |due|
  {
    if k == 0 then (c, [])
    else
      var before := RetryEach(c, due, k - 1);
      if !due[k - 1] then before
      else
        var r := Retry(before.0, c.out[k - 1]);
        (r.0, before.1 + r.1)
  }

  lemma InbRefHeld(cs: seq<Conn>, ps: seq<PendingWrite>, i: int, k: int)
    requires 0 <= i < |cs| && 0 <= k < |cs[i].inb|
    ensures RefOf(cs[i].inb[k]) <= RefsOf(cs[i].inb) && RefsOf(cs[i].inb) <= Total(cs, ps)
    ensures cs[i].inb[k].publish.Some? ==> cs[i].inb[k].publish.value in Total(cs, ps)
  {
    RefsMember(cs[i].inb, k);
    TotalUpdate(cs, ps, i, cs[i]);
    hide RefsOf, AllRefs;
    assert RefOf(cs[i].inb[k]) <= ConnRefs(cs[i]);
    assert cs[i].inb[k].publish.Some? ==> cs[i].inb[k].publish.value in RefOf(cs[i].inb[k]);
  }

  /** An inbound record's publication has no other reference. */
  lemma InbRefAlone(cs: seq<Conn>, ps: seq<PendingWrite>, i: int, k: int)
    requires 0 <= i < |cs| && 0 <= k < |cs[i].inb| && Alone(cs[i], Total(cs, ps))
    ensures cs[i].inb[k].publish.Some? ==> Total(cs, ps)[cs[i].inb[k].publish.value] == 1
  {
    InbRefHeld(cs, ps, i, k);
    hide RefsOf, AllRefs;
    assert cs[i].inb[k].publish.Some? ==> cs[i].inb[k].publish.value in RefOf(cs[i].inb[k]);
  }

  lemma ListHeld(cs: seq<Conn>, ps: seq<PendingWrite>, i: int)
    requires 0 <= i < |cs|
    ensures RefsOf(cs[i].inb) <= Total(cs, ps) && RefsOf(cs[i].out) <= Total(cs, ps)
  {
    TotalUpdate(cs, ps, i, cs[i]);
    hide RefsOf, AllRefs;
  }

  lemma NothingLost(t: multiset<nat>, r: Rec)
    ensures r.publish.None? ==> t - RefOf(r) == t && RefOf(r) == multiset{}
    ensures r.publish.Some? ==> RefOf(r) == multiset{r.publish.value}
  {
  }

  /** A new publication stays when another is released, and shows the message received. */
  lemma NewKept(pubs: Pubs, pubs': Pubs, a: nat, p: Publish, r: Rec, uid: nat, lost: multiset<nat>, t: multiset<nat>)
    requires a !in pubs && (forall q :: q in t ==> q in pubs) && lost <= t
    requires SameContents(pubs[a := Publication(p.topic, p.payload, 1)], pubs')
    requires Counted(pubs', t + multiset{a} - lost)
    requires r == Rec(p.id, p.qos, p.retain, p.properties, AwaitPubrel, uid, Some(a))
    ensures Shows(pubs', r, Received(p, uid)) && RefOf(r) == multiset{a} && SameContents(pubs, pubs')
  {
    assert a !in t && lost[a] <= t[a];
    assert (t + multiset{a} - lost)[a] == 1;
  }

  lemma OneMore(rs: seq<Rec>, k: int, refs: multiset<nat>)
    requires 0 <= k < |rs| && RefsOf(rs) <= refs
    ensures refs - RefsOf(rs[..k + 1]) == refs - RefsOf(rs[..k]) - RefOf(rs[k])
    ensures rs[k].publish.Some? ==> rs[k].publish.value in refs - RefsOf(rs[..k])
  {
    hide RefsOf;
    assert rs[..k + 1] == rs[..k] + [rs[k]];
    RefsAdd(rs[..k], rs[k]);
    assert rs == rs[..k + 1] + rs[k + 1..];
    RefsAppend(rs[..k + 1], rs[k + 1..]);
    TakeTwice(refs, RefsOf(rs[..k]), RefOf(rs[k]));
    assert rs[k].publish.Some? ==> rs[k].publish.value in RefOf(rs[k]);
  }

  lemma TakeTwice(t: multiset<nat>, a: multiset<nat>, b: multiset<nat>)
    requires a + b <= t
    ensures t - (a + b) == t - a - b && b <= t - a
  {
  }

  lemma SameContentsSelf(pubs: Pubs)
    ensures SameContents(pubs, pubs)
  {
  }

  /** Where MQTTPersistence_insertInOrder inserts: before the first record with a greater id. */
  method InsertIndex(rs: seq<Rec>, id: int) returns (k: int)
    ensures 0 <= k <= |rs| && (forall j :: 0 <= j < k ==> rs[j].id <= id) && (k < |rs| ==> id < rs[k].id)
  {
    k := 0;
    while k < |rs| && rs[k].id <= id
      invariant 0 <= k <= |rs| && forall j :: 0 <= j < k ==> rs[j].id <= id
    {
      k := k + 1;
    }
  }

  lemma {:induction false} InsertIs(ms: seq<Message>, m: Message, k: int)
    requires 0 <= k <= |ms| && (forall j :: 0 <= j < k ==> ms[j].id <= m.id) && (k < |ms| ==> m.id < ms[k].id)
    ensures InsertInOrder(ms, m) == ms[..k] + [m] + ms[k..]
  {
    if k > 0 {
      InsertIs(ms[1..], m, k - 1);
      assert ms[1..][..k - 1] == ms[1..k];
      assert ms[..k] == [ms[0]] + ms[1..k];
    }
  }

  lemma Rotated(pubs: Pubs, rs: seq<Rec>, ms: seq<Message>, k: int)
    requires ShowsAll(pubs, rs, ms) && 0 <= k <= |rs|
    ensures ShowsAll(pubs, rs[k..] + rs[..k], ms[k..] + ms[..k]) && RefsOf(rs[k..] + rs[..k]) == RefsOf(rs)
    ensures Full(rs) ==> Full(rs[k..] + rs[..k])
  {
    hide RefsOf, Shows;
    var rs', ms' := rs[k..] + rs[..k], ms[k..] + ms[..k];
    forall j | 0 <= j < |rs'|
      ensures Shows(pubs, rs'[j], ms'[j]) && (Full(rs) ==> rs'[j].publish.Some?)
    {
      var o := if j < |rs| - k then j + k else j - (|rs| - k);
      assert rs'[j] == rs[o] && ms'[j] == ms[o];
    }
    RotatedRefs(rs, k);
  }

  lemma RotatedRefs(rs: seq<Rec>, k: int)
    requires 0 <= k <= |rs|
    ensures RefsOf(rs[k..] + rs[..k]) == RefsOf(rs)
  {
    hide RefsOf;
    RefsAppend(rs[k..], rs[..k]);
    RefsAppend(rs[..k], rs[k..]);
    assert rs[..k] + rs[k..] == rs;
  }

  lemma {:induction false} NoRecords(cs: seq<Conn>)
    requires forall i :: 0 <= i < |cs| ==> cs[i].out == [] && cs[i].inb == []
    ensures AllRefs(cs) == multiset{} && Total(cs, []) == multiset{}
  {
    if |cs| > 0 {
      NoRecords(cs[1..]);
    }
  }
}
