/** One client's session: the records of its exchanges, its persistent store, and what each handler of
    MQTTProtocolClient.c and MQTTPersistence.c does to them. */
module Session {
  import opened Bytes
  import opened Packets
  import Properties

  const MAX_MSG_ID := 65535

  /** nextMessageType: the acknowledgement an exchange waits for; QoS 1 leaves it unset. */
  datatype Awaiting = Unset | AwaitPubrec | AwaitPubrel | AwaitPubcomp

  /** A record of outboundMsgs or inboundMsgs. The uid is not in the program: it numbers the publications
      of a run, so that two publications with the same contents can be told apart. */
  datatype Message = Message(
    id: int, qos: int, retain: bool, topic: seq<byte>, payload: seq<byte>,
    properties: seq<Properties.Property>, awaiting: Awaiting, uid: nat)

  /** The stems of the store's keys: "s-", "sc-", "r-" and, for commands and queued messages, the rest. */
  datatype KeyKind = SentKey | RelKey | ReceivedKey | OtherKey

  /** A key is a stem, its version ("s-" or "s5-"), and a number. */
  datatype Key = Key(kind: KeyKind, v5: bool, id: int)

  /** A stored record: the bytes of a packet, with the uid of the publication they belong to. */
  datatype Stored = Stored(bytes: seq<byte>, uid: nat)

  datatype Client = Client(
    v5: bool, out: seq<Message>, inb: seq<Message>, last: int, store: map<Key, Stored>)

  /** A packet between two clients: a PUBLISH, or an acknowledgement of the given kind. */
  datatype Wire = Pub(publish: Publish, uid: nat) | Ack(kind: int, dup: bool, id: int)

  /** What a handler returns: the new session, the packets it sends, the publications it hands to
      Protocol_processPublication, and whether it reports a socket error instead of acknowledging. */
  datatype Outcome = Outcome(client: Client, sent: seq<Wire>, delivered: seq<Wire>, error: bool)

  // ----- lists of messages -----

  /** ListFindItem by message id: the index of the first match, or -1. */
  function IndexOf(ms: seq<Message>, id: int): (r: int)
    ensures -1 <= r < |ms|
    ensures r >= 0 ==> ms[r].id == id && forall j :: 0 <= j < r ==> ms[j].id != id
    ensures r < 0 ==> forall j :: 0 <= j < |ms| ==> ms[j].id != id
  {
    if |ms| == 0 then -1
    else if ms[0].id == id then 0
    else
      var r := IndexOf(ms[1..], id);
      assert forall j :: 1 <= j < |ms| ==> ms[j] == ms[1..][j - 1];
      if r < 0 then -1 else r + 1
  }

  function Lookup(ms: seq<Message>, id: int): (r: Option<Message>)
    ensures r.None? <==> forall m :: m in ms ==> m.id != id
    ensures r.Some? ==> r.value in ms && r.value.id == id
  {
    var i := IndexOf(ms, id);
    if i < 0 then None else Some(ms[i])
  }

  function RemoveAt(ms: seq<Message>, i: int): (r: seq<Message>)
    requires 0 <= i < |ms|
  {
    ms[..i] + ms[i + 1..]
  }

  predicate DistinctIds(ms: seq<Message>) {
    forall i, j :: 0 <= i < j < |ms| ==> ms[i].id != ms[j].id
  }

  // ----- message ids -----

  /** The id that is d places after `last` on the ring 1..65535. */
  function Cyclic(last: int, d: nat): (r: int)
    requires 0 <= last <= MAX_MSG_ID && 1 <= d <= MAX_MSG_ID
    ensures 1 <= r <= MAX_MSG_ID
  {
    if last + d <= MAX_MSG_ID then last + d else last + d - MAX_MSG_ID
  }

  /** How many ids are tried: all but the last one assigned, or all of them when none has been. */
  function Tries(last: int): (r: nat)
    ensures r <= MAX_MSG_ID
  {
    if last == 0 then MAX_MSG_ID else MAX_MSG_ID - 1
  }

  predicate InUse(ms: seq<Message>, id: int) {
    Lookup(ms, id).Some?
  }

  /** The first free id from the d-th on, or 0. */
  function Scan(ms: seq<Message>, last: int, d: nat): (r: int)
    requires 0 <= last <= MAX_MSG_ID && 1 <= d
    decreases Tries(last) - d
  {
    if d > Tries(last) then 0
    else if !InUse(ms, Cyclic(last, d)) then Cyclic(last, d)
    else Scan(ms, last, d + 1)
  }

  /** MQTTProtocol_assignMsgId: the id to use, or 0. */
  function AssignMsgId(ms: seq<Message>, last: int): (r: int)
    requires 0 <= last <= MAX_MSG_ID
  {
    Scan(ms, last, 1)
  }

  lemma {:induction false} ScanFindsFirst(ms: seq<Message>, last: int, d: nat)
    requires 0 <= last <= MAX_MSG_ID && 1 <= d
    ensures var r := Scan(ms, last, d);
      if r == 0 then forall j :: d <= j <= Tries(last) ==> InUse(ms, Cyclic(last, j))
      else exists k :: d <= k <= Tries(last) && r == Cyclic(last, k) && !InUse(ms, r)
                       && forall j :: d <= j < k ==> InUse(ms, Cyclic(last, j))
    decreases Tries(last) - d
  {
    if d <= Tries(last) && InUse(ms, Cyclic(last, d)) {
      ScanFindsFirst(ms, last, d + 1);
      var r := Scan(ms, last, d + 1);
      if r != 0 {
        var k :| d + 1 <= k <= Tries(last) && r == Cyclic(last, k) && !InUse(ms, r)
                 && forall j :: d + 1 <= j < k ==> InUse(ms, Cyclic(last, j));
        assert forall j :: d <= j < k ==> InUse(ms, Cyclic(last, j));
      }
    }
  }

  /** The assigned id is the first free one cyclically after the last, and 0 is returned
      exactly when every id other than the last assigned is in use. */
  lemma AssignsFirstFree(ms: seq<Message>, last: int)
    requires 0 <= last <= MAX_MSG_ID
    ensures var r := AssignMsgId(ms, last);
      && (r == 0 <==> forall id :: 1 <= id <= MAX_MSG_ID && id != last ==> InUse(ms, id))
      && (r != 0 ==> exists k :: 1 <= k <= Tries(last) && r == Cyclic(last, k) && !InUse(ms, r)
                                 && forall j :: 1 <= j < k ==> InUse(ms, Cyclic(last, j)))
  {
    ScanFindsFirst(ms, last, 1);
    hide Scan, InUse;
    if AssignMsgId(ms, last) == 0 {
      forall id | 1 <= id <= MAX_MSG_ID && id != last
        ensures InUse(ms, id)
      {
        var d := if id > last then id - last else id - last + MAX_MSG_ID;
        assert Cyclic(last, d) == id && 1 <= d <= Tries(last);
      }
    } else {
      var r := AssignMsgId(ms, last);
      assert r != last;
    }
  }

  /** The search loop of MQTTProtocol_assignMsgId, and the update of msgID. It ends unless no id has been
      assigned yet and all are in use. */
  method AssignMsgIdLoop(ms: seq<Message>, last: int) returns (id: int, newLast: int)
    requires 0 <= last <= MAX_MSG_ID
    requires last == 0 ==> exists free :: 1 <= free <= MAX_MSG_ID && !InUse(ms, free)
    ensures id == AssignMsgId(ms, last)
    ensures newLast == if id == 0 then last else id
  {
    ghost var d: nat := 1;
    id := if last == MAX_MSG_ID then 1 else last + 1;
    AssignsFirstFree(ms, last);
    while InUse(ms, id)
      invariant 1 <= d <= Tries(last) && id == Cyclic(last, d)
      invariant Scan(ms, last, d) == AssignMsgId(ms, last)
      decreases MAX_MSG_ID - d
    {
      id := if id == MAX_MSG_ID then 1 else id + 1;
      d := d + 1;
      if id == last {
        id := 0;
        break;
      }
    }
    newLast := if id != 0 then id else last;
  }

  // ----- the store -----

  function ToPublish(m: Message, dup: bool): Publish {
    Publish(dup, m.qos, m.retain, m.topic, m.id, m.properties, m.payload)
  }

  /** The bytes persisted for a PUBLISH; a message beyond the format's limits has none. */
  function Record(v5: bool, p: Publish): seq<byte> {
    if Sendable(v5, p) then PublishBytes(v5, p) else []
  }

  function RelRecord(id: int): seq<byte> {
    if 0 <= id < 65536 then AckBytes(PUBREL, false, id) else []
  }

  /** MQTTPersistence_remove for a sent publication: all four keys, whatever the version. */
  function SentKeys(id: int): set<Key> {
    {Key(SentKey, true, id), Key(RelKey, true, id), Key(SentKey, false, id), Key(RelKey, false, id)}
  }

  function ReceivedKeys(id: int): set<Key> {
    {Key(ReceivedKey, true, id), Key(ReceivedKey, false, id)}
  }

  // ----- the outbound half -----

  /** The packet that starts or repeats an exchange, and the client after persisting it. */
  function SendPublish(c: Client, m: Message, dup: bool): (r: (Client, Wire)) {
    var p := ToPublish(m, dup);
    (c.(store := c.store[Key(SentKey, c.v5, m.id) := Stored(Record(c.v5, p), m.uid)]), Pub(p, m.uid))
  }

  /** MQTTPacket_send_pubrel, whose record always goes under the MQTT 3.1.1 key. */
  function SendPubrel(c: Client, id: int, uid: nat): (r: (Client, Wire)) {
    (c.(store := c.store[Key(RelKey, false, id) := Stored(RelRecord(id), uid)]), Ack(PUBREL, false, id))
  }

  /** MQTTProtocol_startPublish with QoS 1 or 2, for the message id already assigned. */
  function StartPublish(c: Client, m: Message): (r: (Client, Wire)) {
    SendPublish(c.(out := c.out + [m], last := m.id), m, false)
  }

  /** The record leaves the session. */
  function Complete(c: Client, i: int): Client
    requires 0 <= i < |c.out|
  {
    c.(out := RemoveAt(c.out, i), store := c.store - SentKeys(c.out[i].id))
  }

  /** MQTTProtocol_handlePubacks. */
  function OnPuback(c: Client, id: int): (r: Client) {
    var i := IndexOf(c.out, id);
    if i < 0 || c.out[i].qos != 1 then c else Complete(c, i)
  }

  /** MQTTProtocol_handlePubrecs; `refused` is an MQTT 5 reason code of 0x80 or more. */
  function OnPubrec(c: Client, id: int, refused: bool): (r: (Client, seq<Wire>)) {
    var i := IndexOf(c.out, id);
    if i < 0 || c.out[i].qos != 2 || c.out[i].awaiting != AwaitPubrec then (c, [])
    else if c.v5 && refused then (Complete(c, i), [])
    else
      var s := SendPubrel(c, id, c.out[i].uid);
      (s.0.(out := c.out[i := c.out[i].(awaiting := AwaitPubcomp)]), [s.1])
  }

  /** MQTTProtocol_handlePubcomps. */
  function OnPubcomp(c: Client, id: int): (r: Client) {
    var i := IndexOf(c.out, id);
    if i < 0 || c.out[i].qos != 2 || c.out[i].awaiting != AwaitPubcomp then c else Complete(c, i)
  }

  /** One message of MQTTProtocol_retries. */
  function Retry(c: Client, m: Message): (r: (Client, seq<Wire>)) {
    if m.qos == 1 || (m.qos == 2 && m.awaiting == AwaitPubrec) then
      var s := SendPublish(c, m, true);
      (s.0, [s.1])
    else if m.qos != 0 && m.awaiting == AwaitPubcomp then
      var s := SendPubrel(c, m.id, m.uid);
      (s.0, [s.1])
    else (c, [])
  }

  // ----- the inbound half -----

  function Received(p: Publish, uid: nat): Message {
    Message(p.id, p.qos, p.retain, p.topic, p.payload, p.properties, AwaitPubrel, uid)
  }

  /** MQTTPacket_Factory persists a QoS 2 PUBLISH before its handler runs. */
  function PersistReceived(c: Client, p: Publish, uid: nat): Client {
    if p.qos != 2 then c
    else c.(store := c.store[Key(ReceivedKey, c.v5, p.id) := Stored(Record(c.v5, p), uid)])
  }

  /** MQTTPacket_Factory's persisting, then MQTTProtocol_handlePublishes; `clear` is Socket_noPendingWrites. */
  function OnPublish(c0: Client, p: Publish, uid: nat, clear: bool): (r: Outcome) {
    var c := PersistReceived(c0, p, uid);
    if p.qos == 0 then Outcome(c, [], [Pub(p, uid)], false)
    else if !clear then Outcome(c, [], [], true)
    else if p.qos == 1 then Outcome(c, [Ack(PUBACK, false, p.id)], [Pub(p, uid)], false)
    else if p.qos == 2 then
      var i := IndexOf(c.inb, p.id);
      var m := Received(p, uid);
      Outcome(c.(inb := if i < 0 then c.inb + [m] else c.inb[i := m]),
              [Ack(PUBREC, false, p.id)],
              if c.v5 && i < 0 then [Pub(p, uid)] else [],
              false)
    else Outcome(c, [], [], false)
  }

  /** MQTTProtocol_handlePubrels. */
  function OnPubrel(c: Client, id: int, dup: bool, clear: bool): (r: Outcome) {
    var i := IndexOf(c.inb, id);
    if i < 0 then
      if !dup then Outcome(c, [], [], false)
      else if !clear then Outcome(c, [], [], true)
      else Outcome(c, [Ack(PUBCOMP, false, id)], [], false)
    else
      var m := c.inb[i];
      if m.qos != 2 || m.awaiting != AwaitPubrel then Outcome(c, [], [], false)
      else if !clear then Outcome(c, [], [], true)
      else
        Outcome(c.(inb := RemoveAt(c.inb, i), store := c.store - ReceivedKeys(id)),
                [Ack(PUBCOMP, false, id)],
                if c.v5 then [] else [Pub(ToPublish(m, false), m.uid)],
                false)
  }

  // ----- restoring -----

  /** MQTTPersistence_insertInOrder: before the first message with a greater id. */
  function InsertInOrder(ms: seq<Message>, m: Message): (r: seq<Message>) {
    if |ms| == 0 then [m]
    else if m.id < ms[0].id then [m] + ms
    else [ms[0]] + InsertInOrder(ms[1..], m)
  }

  /** MQTTProtocol_createMessage for a restored PUBLISH. */
  function Restored(p: Publish, uid: nat): Message {
    Message(p.id, p.qos, p.retain, p.topic, p.payload, p.properties,
            if p.qos == 2 then AwaitPubrec else Unset, uid)
  }

  /** One key of MQTTPersistence_restore; None is the error for MQTT 5 data in a 3.1.1 client. */
  function RestoreKey(c: Client, k: Key): (r: Option<Client>) {
    if k.kind == OtherKey || k !in c.store then Some(c)
    else if k.v5 && !c.v5 then None
    else
      match RestorePacket(k.v5, c.store[k].bytes)
      case None => Some(c.(store := c.store - {k}))
      case Some(PublishPacket(p)) =>
        var m := Restored(p, c.store[k].uid);
        (match k.kind
         case ReceivedKey => Some(c.(inb := c.inb + [m.(awaiting := AwaitPubrel)]))
         case SentKey =>
           var rel := Key(RelKey, c.v5, p.id) in c.store;
           Some(c.(out := InsertInOrder(c.out, if rel then m.(awaiting := AwaitPubcomp) else m)))
         case _ => Some(c))
      case Some(AckPacket(_, _, id)) =>
        if k.kind == RelKey && Key(SentKey, c.v5, id) !in c.store then Some(c.(store := c.store - {k}))
        else Some(c)
  }

  function RestoreKeys(c: Client, keys: seq<Key>): (r: Option<Client>)
    decreases |keys|
  {
    if |keys| == 0 then Some(c)
    else
      var d := RestoreKey(c, keys[0]);
      if d.None? then None else RestoreKeys(d.value, keys[1..])
  }

  /** The gap before the first message, round the end of the ring. */
  function WrapGap(ms: seq<Message>): int
    requires |ms| > 0
  {
    MAX_MSG_ID - ms[|ms| - 1].id + ms[0].id
  }

  /** The scan of MQTTPersistence_wrapMsgID from index i on, with the best gap so far and its index. */
  function WrapPoint(ms: seq<Message>, i: nat, gap: int, best: nat): (r: nat)
    requires 1 <= i <= |ms| && best < |ms|
    ensures r < |ms|
    decreases |ms| - i
  {
    if i == |ms| then best
    else
      var g := ms[i].id - ms[i - 1].id;
      if g > gap then WrapPoint(ms, i + 1, g, i) else WrapPoint(ms, i + 1, gap, best)
  }

  /** MQTTPersistence_wrapMsgID: the list is made to start after its largest gap. */
  function WrapMsgId(ms: seq<Message>): (r: seq<Message>)
    ensures |r| == |ms|
  {
    if |ms| == 0 then []
    else
      var k := WrapPoint(ms, 1, WrapGap(ms), 0);
      ms[k..] + ms[..k]
  }

  /** A new client that restores its session from a store, whose keys pkeys lists in some order. */
  function Restart(v5: bool, store: map<Key, Stored>, keys: seq<Key>): (r: Option<Client>) {
    var c := RestoreKeys(Client(v5, [], [], 0, store), keys);
    if c.None? then None else Some(c.value.(out := WrapMsgId(c.value.out)))
  }

  // ----- lemmas about the lists -----

  lemma LookupUnique(ms: seq<Message>, i: int)
    requires DistinctIds(ms) && 0 <= i < |ms|
    ensures IndexOf(ms, ms[i].id) == i && Lookup(ms, ms[i].id) == Some(ms[i])
  {
    var r := IndexOf(ms, ms[i].id);
    assert ms[r].id == ms[i].id;
  }

  lemma LookupAppend(ms: seq<Message>, m: Message, id: int)
    requires Lookup(ms, m.id).None?
    ensures Lookup(ms + [m], id) == if id == m.id then Some(m) else Lookup(ms, id)
  {
    var r := IndexOf(ms + [m], id);
    var r' := IndexOf(ms, id);
    if r >= 0 && r < |ms| {
      assert ms[r].id == id;
    }
    if r' >= 0 {
      assert (ms + [m])[r'].id == id;
    }
    assert (ms + [m])[|ms|] == m;
  }

  lemma LookupUpdate(ms: seq<Message>, i: int, m: Message, id: int)
    requires 0 <= i < |ms| && m.id == ms[i].id && IndexOf(ms, m.id) == i
    ensures Lookup(ms[i := m], id) == if id == m.id then Some(m) else Lookup(ms, id)
  {
    var us := ms[i := m];
    var r, r' := IndexOf(us, id), IndexOf(ms, id);
    assert forall j :: 0 <= j < |ms| ==> us[j].id == ms[j].id;
    assert r == r';
  }

  lemma LookupRemove(ms: seq<Message>, i: int, id: int)
    requires DistinctIds(ms) && 0 <= i < |ms|
    ensures DistinctIds(RemoveAt(ms, i))
    ensures Lookup(RemoveAt(ms, i), id) == if id == ms[i].id then None else Lookup(ms, id)
  {
    var us := RemoveAt(ms, i);
    assert forall j :: 0 <= j < |us| ==> us[j] == if j < i then ms[j] else ms[j + 1];
    var r' := IndexOf(ms, id);
    if id != ms[i].id && r' >= 0 {
      var j := if r' < i then r' else r' - 1;
      assert us[j] == ms[r'];
      LookupUnique(us, j);
    }
  }
}
