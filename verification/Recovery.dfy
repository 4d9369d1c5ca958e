/** Restarting a client from its persistent store: MQTTPersistence_restore. */
module Recovery {
  import opened Bytes
  import opened Packets
  import opened Session
  import opened SendOrder
  import Properties

  /** A QoS 1 or 2 message that the packet format can carry, at a stage of its exchange. */
  predicate MessageOk(v5: bool, m: Message) {
    && Sendable(v5, ToPublish(m, false))
    && (forall p :: p in m.properties ==> Properties.Faithful(p))
    && 1 <= m.id <= MAX_MSG_ID
    && ((m.qos == 1 && m.awaiting == Unset)
        || (m.qos == 2 && (m.awaiting == AwaitPubrec || m.awaiting == AwaitPubcomp)))
  }

  /** The stored bytes parse to the message's PUBLISH, whatever its DUP flag. */
  predicate Holds(v5: bool, s: Stored, m: Message) {
    s.uid == m.uid &&
    (RestorePacket(v5, s.bytes) == Some(PublishPacket(ToPublish(m, false)))
     || RestorePacket(v5, s.bytes) == Some(PublishPacket(ToPublish(m, true))))
  }

  /** What the store holds for one id, given the outbound message with that id, if any. The PUBREL goes under
      the MQTT 3.1.1 key in both versions. An MQTT 5 client that has forgotten a PUBREL may still have its record. */
  ghost predicate IdPersisted(v5: bool, forgot: bool, m: Option<Message>, store: map<Key, Stored>, id: int) {
    var sent, rel := Key(SentKey, v5, id), Key(RelKey, false, id);
    && (m.None? ==> sent !in store)
    && (m.Some? ==>
          && MessageOk(v5, m.value)
          && sent in store && Holds(v5, store[sent], m.value)
          && (m.value.awaiting == AwaitPubcomp ==> rel in store)
          && (rel in store ==> m.value.awaiting == AwaitPubcomp || (forgot && v5 && m.value.qos == 2)))
    && (rel in store ==> RestorePacket(false, store[rel].bytes) == Some(AckPacket(PUBREL, false, id)))
  }

  /** The version in a key that a client of the given version writes. */
  predicate OwnKey(v5: bool, k: Key) {
    k.kind == OtherKey || k.v5 == (v5 && k.kind != RelKey)
  }

  /** Exactly the outbound messages are persisted as sent, and a PUBREL is persisted for those that
      wait for PUBCOMP. A PUBREL may also be left over from a message removed in part. */
  ghost predicate OutPersisted(v5: bool, forgot: bool, out: seq<Message>, store: map<Key, Stored>) {
    && DistinctIds(out)
    && (forall id :: IdPersisted(v5, forgot, Lookup(out, id), store, id))
    && (forall k :: k in store ==> OwnKey(v5, k))
  }

  ghost predicate NoOrphans(out: seq<Message>, store: map<Key, Stored>) {
    forall id :: Key(RelKey, false, id) in store ==> Lookup(out, id).Some?
  }

  lemma MembersPersisted(v5: bool, forgot: bool, out: seq<Message>, store: map<Key, Stored>)
    requires OutPersisted(v5, forgot, out, store)
    ensures forall m :: m in out ==> Lookup(out, m.id) == Some(m) && MessageOk(v5, m) && Key(SentKey, v5, m.id) in store
    ensures ValidIds(out)
  {
    hide MessageOk, Holds, RestorePacket;
    forall m | m in out
      ensures Lookup(out, m.id) == Some(m) && MessageOk(v5, m) && Key(SentKey, v5, m.id) in store
    {
      LookupByMembership(out, m);
      assert IdPersisted(v5, forgot, Lookup(out, m.id), store, m.id);
    }
    assert forall m :: MessageOk(v5, m) ==> 1 <= m.id <= MAX_MSG_ID by { RangeOfIds(v5); }
  }

  lemma RangeOfIds(v5: bool)
    ensures forall m :: MessageOk(v5, m) ==> 1 <= m.id <= MAX_MSG_ID
  {
  }

  predicate Orphan(out: seq<Message>, k: Key) {
    k.kind == RelKey && Lookup(out, k.id).None?
  }

  /** A record under "r-id" parses to a QoS 2 PUBLISH with that id. */
  predicate ReceivedOk(v5: bool, k: Key, s: Stored) {
    match RestorePacket(v5, s.bytes)
    case Some(PublishPacket(p)) => p.id == k.id && p.qos == 2
    case _ => false
  }

  ghost predicate InPersisted(v5: bool, store: map<Key, Stored>) {
    forall k :: k in store && k.kind == ReceivedKey ==> ReceivedOk(v5, k, store[k])
  }

  /** The inbound message a record under "r-id" stands for. */
  function ReceivedMessage(v5: bool, s: Stored): Message {
    match RestorePacket(v5, s.bytes)
    case Some(PublishPacket(p)) => Received(p, s.uid)
    case _ => Received(Publish(false, 0, false, [], 0, [], []), s.uid)
  }

  predicate Distinct(keys: seq<Key>) {
    forall i, j :: 0 <= i < j < |keys| ==> keys[i] != keys[j]
  }

  /** pkeys lists every key of the store once, in any order. */
  ghost predicate Lists(keys: seq<Key>, store: map<Key, Stored>) {
    Distinct(keys) && forall k :: k in keys <==> k in store
  }

  // ----- what a restart makes of the messages -----

  /** An MQTT 5 restart looks for the PUBREL under the MQTT 5 key, where it never is: the message waits for PUBREC
      again. */
  function Again(v5: bool, m: Message): Message {
    if v5 && m.awaiting == AwaitPubcomp then m.(awaiting := AwaitPubrec) else m
  }

  function AgainIfAny(v5: bool, m: Option<Message>): Option<Message> {
    if m.None? then None else Some(Again(v5, m.value))
  }

  function AllAgain(v5: bool, ms: seq<Message>): (r: seq<Message>)
    ensures |r| == |ms| && forall i :: 0 <= i < |ms| ==> r[i] == Again(v5, ms[i])
  {
    seq(|ms|, i requires 0 <= i < |ms| => Again(v5, ms[i]))
  }

  /** No message has PUBREL outstanding in a client that would forget it. */
  predicate NoneForgotten(v5: bool, ms: seq<Message>) {
    v5 ==> forall m :: m in ms ==> m.awaiting != AwaitPubcomp
  }

  lemma AgainLookup(v5: bool, ms: seq<Message>, id: int)
    ensures DistinctIds(ms) ==> DistinctIds(AllAgain(v5, ms))
    ensures Lookup(AllAgain(v5, ms), id) == AgainIfAny(v5, Lookup(ms, id))
  {
    var rs := AllAgain(v5, ms);
    var i, j := IndexOf(ms, id), IndexOf(rs, id);
    assert forall k :: 0 <= k < |ms| ==> rs[k].id == ms[k].id;
  }

  lemma AgainMembers(v5: bool, ms: seq<Message>)
    ensures forall m :: m in ms ==> Again(v5, m) in AllAgain(v5, ms)
    ensures forall r :: r in AllAgain(v5, ms) ==> exists m :: m in ms && r == Again(v5, m)
  {
    var rs := AllAgain(v5, ms);
    forall m | m in ms
      ensures Again(v5, m) in rs
    {
      var i :| 0 <= i < |ms| && ms[i] == m;
      assert rs[i] == Again(v5, m);
    }
    forall r | r in rs
      ensures exists m :: m in ms && r == Again(v5, m)
    {
      var i :| 0 <= i < |rs| && rs[i] == r;
      assert ms[i] in ms && r == Again(v5, ms[i]);
    }
  }

  lemma NothingForgotten(v5: bool, ms: seq<Message>)
    ensures NoneForgotten(v5, ms) ==> AllAgain(v5, ms) == ms
  {
    assert forall i :: 0 <= i < |ms| ==> ms[i] in ms;
  }

  lemma NoneWaits(v5: bool, ms: seq<Message>)
    ensures v5 ==> forall r :: r in AllAgain(v5, ms) ==> r.awaiting != AwaitPubcomp
  {
  }

  // ----- one key at a time -----

  /** The outbound list once the keys in `done` have been processed: sorted, and the messages whose key was seen. */
  ghost predicate OutRebuilt(v5: bool, ms: seq<Message>, out: seq<Message>, done: set<Key>) {
    Sorted(ms) && forall m :: m in ms <==> m in AllAgain(v5, out) && Key(SentKey, v5, m.id) in done
  }

  ghost predicate InRebuilt(v5: bool, ms: seq<Message>, store: map<Key, Stored>, done: set<Key>) {
    && DistinctIds(ms)
    && (forall m :: m in ms ==>
          var k := Key(ReceivedKey, v5, m.id); k in done && k in store && m == ReceivedMessage(v5, store[k]))
    && (forall k :: k in done && k in store && k.kind == ReceivedKey ==> ReceivedMessage(v5, store[k]) in ms)
  }

  /** The store has lost the left-over PUBRELs seen so far. */
  ghost predicate StoreRebuilt(now: map<Key, Stored>, out: seq<Message>, store: map<Key, Stored>, done: set<Key>) {
    && (forall k :: k in now <==> k in store && !(k in done && Orphan(out, k)))
    && (forall k :: k in now ==> now[k] == store[k])
  }

  ghost predicate Rebuilt(c: Client, out: seq<Message>, store: map<Key, Stored>, done: set<Key>) {
    && c.last == 0
    && OutRebuilt(c.v5, c.out, out, done)
    && InRebuilt(c.v5, c.inb, store, done)
    && StoreRebuilt(c.store, out, store, done)
  }

  lemma OutUnmoved(v5: bool, ms: seq<Message>, out: seq<Message>, done: set<Key>, k: Key)
    requires OutRebuilt(v5, ms, out, done) && k.kind != SentKey
    ensures OutRebuilt(v5, ms, out, done + {k})
  {
  }

  lemma InUnmoved(v5: bool, ms: seq<Message>, store: map<Key, Stored>, done: set<Key>, k: Key)
    requires InRebuilt(v5, ms, store, done) && k.kind != ReceivedKey
    ensures InRebuilt(v5, ms, store, done + {k})
  {
  }

  lemma StoreUnmoved(now: map<Key, Stored>, out: seq<Message>, store: map<Key, Stored>, done: set<Key>, k: Key)
    requires StoreRebuilt(now, out, store, done) && !Orphan(out, k)
    ensures StoreRebuilt(now, out, store, done + {k})
  {
  }

  lemma OutExtended(v5: bool, ms: seq<Message>, out: seq<Message>, done: set<Key>, m: Message)
    requires OutRebuilt(v5, ms, out, done) && DistinctIds(out) && m in AllAgain(v5, out)
    requires Key(SentKey, v5, m.id) !in done
    ensures OutRebuilt(v5, InsertInOrder(ms, m), out, done + {Key(SentKey, v5, m.id)})
  {
    InsertSorted(ms, m);
    InsertMembers(ms, m);
    var rs := AllAgain(v5, out);
    AgainLookup(v5, out, m.id);
    forall x | x in rs && x.id == m.id
      ensures x == m
    {
      LookupByMembership(rs, x);
      LookupByMembership(rs, m);
    }
  }

  lemma RestoreSentKey(forgot: bool, c: Client, k: Key, out: seq<Message>, store: map<Key, Stored>, done: set<Key>)
    requires OutPersisted(c.v5, forgot, out, store) && Rebuilt(c, out, store, done)
    requires k in store && k !in done && k.kind == SentKey
    ensures RestoreKey(c, k).Some? && Rebuilt(RestoreKey(c, k).value, out, store, done + {k})
  {
    assert IdPersisted(c.v5, forgot, Lookup(out, k.id), store, k.id);
    assert OwnKey(c.v5, k) && k == Key(SentKey, c.v5, k.id);
    var m := Lookup(out, k.id).value;
    var n := Again(c.v5, m);
    AgainMembers(c.v5, out);
    InUnmoved(c.v5, c.inb, store, done, k);
    StoreUnmoved(c.store, out, store, done, k);
    OutExtended(c.v5, c.out, out, done, n);
    RelKeySeen(forgot, c, out, store, done, m.id);
    hide RestorePacket, InsertInOrder, OutPersisted, InRebuilt, StoreRebuilt;
    hide OutRebuilt, MessageOk, Holds, AllAgain, DistinctIds;
    SentKeyRead(c, k, m);
  }

  lemma SentKeyRead(c: Client, k: Key, m: Message)
    requires k in c.store && k == Key(SentKey, c.v5, m.id) && Holds(c.v5, c.store[k], m) && MessageOk(c.v5, m)
    requires Key(RelKey, c.v5, m.id) in c.store <==> !c.v5 && m.awaiting == AwaitPubcomp
    ensures RestoreKey(c, k) == Some(c.(out := InsertInOrder(c.out, Again(c.v5, m))))
  {
    hide RestorePacket, InsertInOrder, Sendable;
  }

  /** The restart finds the PUBREL of a message that waits for PUBCOMP, but not in MQTT 5. */
  lemma RelKeySeen(forgot: bool, c: Client, out: seq<Message>, store: map<Key, Stored>, done: set<Key>, id: int)
    requires OutPersisted(c.v5, forgot, out, store) && StoreRebuilt(c.store, out, store, done) && Lookup(out, id).Some?
    ensures Key(RelKey, c.v5, id) in c.store <==> !c.v5 && Lookup(out, id).value.awaiting == AwaitPubcomp
  {
    hide MessageOk, Holds, RestorePacket;
    var k := Key(RelKey, c.v5, id);
    assert IdPersisted(c.v5, forgot, Lookup(out, id), store, id);
    assert !Orphan(out, k);
    assert c.v5 ==> !OwnKey(c.v5, k);
  }

  lemma RestoreRelKey(forgot: bool, c: Client, k: Key, out: seq<Message>, store: map<Key, Stored>, done: set<Key>)
    requires OutPersisted(c.v5, forgot, out, store) && Rebuilt(c, out, store, done)
    requires k in store && k !in done && k.kind == RelKey
    ensures RestoreKey(c, k).Some? && Rebuilt(RestoreKey(c, k).value, out, store, done + {k})
  {
    hide RestorePacket, InsertInOrder, MessageOk, Holds;
    assert IdPersisted(c.v5, forgot, Lookup(out, k.id), store, k.id);
    assert OwnKey(c.v5, k) && k == Key(RelKey, false, k.id);
    OutUnmoved(c.v5, c.out, out, done, k);
    InUnmoved(c.v5, c.inb, store, done, k);
    var removed := Lookup(out, k.id).None?;
    assert removed <==> Key(SentKey, c.v5, k.id) !in c.store;
    assert RestorePacket(false, c.store[k].bytes) == Some(AckPacket(PUBREL, false, k.id));
    hide OutPersisted, OutRebuilt, InRebuilt, IdPersisted;
    assert RestoreKey(c, k) == Some(if removed then c.(store := c.store - {k}) else c);
  }

  lemma RestoreReceivedKey(forgot: bool, c: Client, k: Key, out: seq<Message>, store: map<Key, Stored>, done: set<Key>)
    requires OutPersisted(c.v5, forgot, out, store) && InPersisted(c.v5, store) && Rebuilt(c, out, store, done)
    requires k in store && k !in done && k.kind == ReceivedKey
    ensures RestoreKey(c, k).Some? && Rebuilt(RestoreKey(c, k).value, out, store, done + {k})
  {
    OutUnmoved(c.v5, c.out, out, done, k);
    StoreUnmoved(c.store, out, store, done, k);
    assert OwnKey(c.v5, k);
    InExtended(c.v5, c.inb, store, done, k);
    assert ReceivedOk(c.v5, k, store[k]) && k.v5 == c.v5 && c.store[k] == store[k];
    var m := ReceivedMessage(c.v5, store[k]);
    hide InsertInOrder, OutPersisted, OutRebuilt, StoreRebuilt, InRebuilt, InPersisted;
    assert RestoreKey(c, k) == Some(c.(inb := c.inb + [m])) by { hide RestorePacket; }
  }

  lemma InExtended(v5: bool, ms: seq<Message>, store: map<Key, Stored>, done: set<Key>, k: Key)
    requires InRebuilt(v5, ms, store, done) && k in store && k !in done
    requires k.kind == ReceivedKey && k.v5 == v5 && ReceivedOk(v5, k, store[k])
    ensures InRebuilt(v5, ms + [ReceivedMessage(v5, store[k])], store, done + {k})
  {
    var m := ReceivedMessage(v5, store[k]);
    assert m.id == k.id && k == Key(ReceivedKey, v5, m.id) by { hide RestorePacket; }
    hide ReceivedMessage, ReceivedOk;
    assert forall x :: x in ms ==> x.id != m.id;
  }

  lemma RestoreOneKey(forgot: bool, c: Client, k: Key, out: seq<Message>, store: map<Key, Stored>, done: set<Key>)
    requires OutPersisted(c.v5, forgot, out, store) && InPersisted(c.v5, store) && Rebuilt(c, out, store, done)
    requires k in store && k !in done
    ensures RestoreKey(c, k).Some? && Rebuilt(RestoreKey(c, k).value, out, store, done + {k})
    ensures RestoreKey(c, k).value.v5 == c.v5
  {
    SameVersion(c, k);
    match k.kind {
      case SentKey => RestoreSentKey(forgot, c, k, out, store, done);
      case RelKey => RestoreRelKey(forgot, c, k, out, store, done);
      case ReceivedKey => RestoreReceivedKey(forgot, c, k, out, store, done);
      case OtherKey =>
        assert RestoreKey(c, k) == Some(c);
        OutUnmoved(c.v5, c.out, out, done, k);
        InUnmoved(c.v5, c.inb, store, done, k);
        StoreUnmoved(c.store, out, store, done, k);
    }
  }

  lemma SameVersion(c: Client, k: Key)
    ensures RestoreKey(c, k).Some? ==> RestoreKey(c, k).value.v5 == c.v5
  {
    hide RestorePacket, InsertInOrder;
  }

  lemma {:induction false} RestoreAllKeys(
      forgot: bool, c: Client, keys: seq<Key>, out: seq<Message>, store: map<Key, Stored>, done: set<Key>)
    requires OutPersisted(c.v5, forgot, out, store) && InPersisted(c.v5, store) && Rebuilt(c, out, store, done)
    requires Distinct(keys) && forall k :: k in keys ==> k in store && k !in done
    ensures RestoreKeys(c, keys).Some? && RestoreKeys(c, keys).value.v5 == c.v5
    ensures Rebuilt(RestoreKeys(c, keys).value, out, store, done + (set k | k in keys))
    decreases |keys|
  {
    hide RestoreKey, Rebuilt, OutPersisted, InPersisted;
    if |keys| == 0 {
      assert done + (set k | k in keys) == done;
    } else {
      var first := keys[0];
      assert first in keys;
      RestoreOneKey(forgot, c, first, out, store, done);
      forall k | k in keys[1..]
        ensures k in store && k !in done + {first}
      {
        assert k in keys;
      }
      RestoreAllKeys(forgot, RestoreKey(c, first).value, keys[1..], out, store, done + {first});
      assert keys == [first] + keys[1..];
      assert done + {first} + (set k | k in keys[1..]) == done + (set k | k in keys);
    }
  }

  // ----- the restarted client -----

  /** The restarted client has the same outbound messages, but for the PUBRELs it forgets, in sorted order up to a
      rotation, and what the store says it received; the store has lost its left-over PUBRELs and nothing else. */
  ghost predicate Recovered(r: Client, out: seq<Message>, store: map<Key, Stored>) {
    && r.last == 0
    && DistinctIds(r.out) && SameMembers(r.out, AllAgain(r.v5, out))
    && InboundFromStore(r.v5, r.inb, store)
    && (forall k :: k in r.store <==> k in store && !Orphan(out, k))
    && (forall k :: k in r.store ==> r.store[k] == store[k])
  }

  lemma LookupByMembership(ms: seq<Message>, m: Message)
    requires DistinctIds(ms) && m in ms
    ensures Lookup(ms, m.id) == Some(m)
  {
    var i :| 0 <= i < |ms| && ms[i] == m;
    LookupUnique(ms, i);
  }

  lemma SameMembersSameLookup(a: seq<Message>, b: seq<Message>, id: int)
    requires DistinctIds(a) && DistinctIds(b) && SameMembers(a, b)
    ensures Lookup(a, id) == Lookup(b, id)
  {
    var x, y := Lookup(a, id), Lookup(b, id);
    if x.Some? { LookupByMembership(b, x.value); }
    if y.Some? { LookupByMembership(a, y.value); }
  }

  /** Crash recovery: whatever order the keys are listed in, a restart rebuilds the outbound messages, each waiting
      for the same packet, but that an MQTT 5 client waits for PUBREC where it had waited for PUBCOMP; and in the order
      they were sent if and only if their ids were issued in cyclic order and the first follows the first largest
      gap. */
  lemma RestartRecovers(v5: bool, forgot: bool, out: seq<Message>, store: map<Key, Stored>, keys: seq<Key>)
    requires OutPersisted(v5, forgot, out, store) && InPersisted(v5, store) && Lists(keys, store)
    ensures Restart(v5, store, keys).Some?
    ensures var r := Restart(v5, store, keys).value;
      && r.v5 == v5 && Recovered(r, out, store)
      && (r.out == AllAgain(v5, out) <==> CyclicOrder(out) && FollowsLargestGap(out))
  {
    hide WrapMsgId, CyclicOrder, FollowsLargestGap, RestoreKeys, RestorePacket, AllAgain;
    hide OutRebuilt, InRebuilt, StoreRebuilt, InPersisted;
    hide OutPersisted, Sorted, ValidIds, DistinctIds, InboundFromStore;
    var start := Client(v5, [], [], 0, store);
    NothingRebuilt(v5, out, store);
    RestoreAllKeys(forgot, start, keys, out, store, {});
    var c := RestoreKeys(start, keys).value;
    var all := set k | k in keys;
    assert {} + all == all;
    RebuiltAll(forgot, c, out, store, all);
    WrapMembers(c.out);
    SameIdsSameOrder(v5, out);
    RestoresExactly(AllAgain(v5, out), c.out);
  }

  lemma SameIdsSameOrder(v5: bool, out: seq<Message>)
    ensures CyclicOrder(AllAgain(v5, out)) <==> CyclicOrder(out)
    ensures FollowsLargestGap(AllAgain(v5, out)) <==> FollowsLargestGap(out)
    ensures ValidIds(out) ==> ValidIds(AllAgain(v5, out))
  {
    hide FollowsLargestGap, CyclicOrder, AllAgain, ValidIds;
    SameIds(v5, out);
    SameIdsSameGaps(AllAgain(v5, out), out);
    SameIdsSameCycle(AllAgain(v5, out), out);
    AgainValid(v5, out);
  }

  lemma SameIds(v5: bool, out: seq<Message>)
    ensures var rs := AllAgain(v5, out); |rs| == |out| && forall i :: 0 <= i < |rs| ==> rs[i].id == out[i].id
  {
  }

  lemma AgainValid(v5: bool, out: seq<Message>)
    ensures ValidIds(out) ==> ValidIds(AllAgain(v5, out))
  {
    hide AllAgain;
    AgainMembers(v5, out);
  }

  /** A restart rebuilds exactly the session it had if and only if the client is an MQTT 3.1.1 one or no message
      waits for PUBCOMP. */
  lemma RestartRecoversExactly(v5: bool, forgot: bool, out: seq<Message>, store: map<Key, Stored>, keys: seq<Key>)
    requires OutPersisted(v5, forgot, out, store) && InPersisted(v5, store) && Lists(keys, store)
    ensures Restart(v5, store, keys).Some?
    ensures SameMembers(Restart(v5, store, keys).value.out, out) <==> NoneForgotten(v5, out)
  {
    hide Restart, OutPersisted, InPersisted, InboundFromStore, CyclicOrder, FollowsLargestGap, SameMembers, DistinctIds;
    hide AllAgain, NoneForgotten, Lists;
    RestartRecovers(v5, forgot, out, store, keys);
    ForgottenOrNot(v5, Restart(v5, store, keys).value.out, out);
  }

  lemma ForgottenOrNot(v5: bool, rs: seq<Message>, out: seq<Message>)
    requires SameMembers(rs, AllAgain(v5, out))
    ensures SameMembers(rs, out) <==> NoneForgotten(v5, out)
  {
    hide AllAgain;
    NothingForgotten(v5, out);
    NoneWaits(v5, out);
  }

  lemma NothingRebuilt(v5: bool, out: seq<Message>, store: map<Key, Stored>)
    ensures OutRebuilt(v5, [], out, {}) && InRebuilt(v5, [], store, {}) && StoreRebuilt(store, out, store, {})
  {
  }

  lemma RebuiltAll(forgot: bool, c: Client, out: seq<Message>, store: map<Key, Stored>, all: set<Key>)
    requires OutPersisted(c.v5, forgot, out, store) && InPersisted(c.v5, store) && Rebuilt(c, out, store, all)
    requires forall k :: k in store <==> k in all
    ensures SameMembers(c.out, AllAgain(c.v5, out)) && Sorted(c.out) && DistinctIds(c.out) && ValidIds(out)
    ensures InboundFromStore(c.v5, c.inb, store)
    ensures forall k :: k in c.store <==> k in store && !Orphan(out, k)
    ensures forall k :: k in c.store ==> c.store[k] == store[k]
  {
    MembersPersisted(c.v5, forgot, out, store);
    RestoredInbound(c.v5, c.inb, store, all);
    AgainMembers(c.v5, out);
    hide RestorePacket, MessageOk, InPersisted, InRebuilt, InboundFromStore, IdPersisted;
    forall m | m in AllAgain(c.v5, out)
      ensures Key(SentKey, c.v5, m.id) in store
    {
      var x :| x in out && m == Again(c.v5, x);
    }
  }

  ghost predicate InboundFromStore(v5: bool, inb: seq<Message>, store: map<Key, Stored>) {
    DistinctIds(inb) && forall id :: Lookup(inb, id) == FromStore(v5, store, id)
  }

  function FromStore(v5: bool, store: map<Key, Stored>, id: int): Option<Message> {
    var k := Key(ReceivedKey, v5, id);
    if k in store then Some(ReceivedMessage(v5, store[k])) else None
  }

  lemma RestoredInbound(v5: bool, inb: seq<Message>, store: map<Key, Stored>, done: set<Key>)
    requires InPersisted(v5, store) && InRebuilt(v5, inb, store, done) && forall k :: k in store ==> k in done
    ensures InboundFromStore(v5, inb, store)
  {
    hide RestorePacket;
    forall id
      ensures Lookup(inb, id) == FromStore(v5, store, id)
    {
      var k := Key(ReceivedKey, v5, id);
      if k in store {
        assert ReceivedOk(v5, k, store[k]);
        LookupByMembership(inb, ReceivedMessage(v5, store[k]));
      }
    }
  }

  /** After a restart the store matches the session again, with nothing left over but the records of PUBRELs that an
      MQTT 5 client has forgotten. */
  lemma RestartKeepsPersisted(forgot: bool, r: Client, out: seq<Message>, store: map<Key, Stored>)
    requires OutPersisted(r.v5, forgot, out, store) && InPersisted(r.v5, store) && Recovered(r, out, store)
    ensures OutPersisted(r.v5, forgot || !NoneForgotten(r.v5, out), r.out, r.store)
    ensures NoOrphans(r.out, r.store) && InPersisted(r.v5, r.store)
  {
    hide RestorePacket, MessageOk, ReceivedOk, Holds, AllAgain, NoneForgotten, IdPersisted;
    var forgets := forgot || !NoneForgotten(r.v5, out);
    forall id
      ensures IdPersisted(r.v5, forgets, Lookup(r.out, id), r.store, id)
      ensures Key(RelKey, false, id) in r.store ==> Lookup(r.out, id).Some?
    {
      AgainLookup(r.v5, out, id);
      SameMembersSameLookup(r.out, AllAgain(r.v5, out), id);
      Forgets(r.v5, out, Lookup(out, id));
      assert !Orphan(out, Key(SentKey, r.v5, id));
      assert Orphan(out, Key(RelKey, false, id)) <==> Lookup(out, id).None?;
      AgainPersisted(r.v5, forgot, forgets, Lookup(out, id), store, r.store, id);
    }
  }

  lemma AgainPersisted(
      v5: bool, forgot: bool, forgets: bool, m: Option<Message>,
      store: map<Key, Stored>, now: map<Key, Stored>, id: int)
    requires IdPersisted(v5, forgot, m, store, id) && (forgot ==> forgets)
    requires v5 && m.Some? && m.value.awaiting == AwaitPubcomp ==> forgets
    requires forall k :: k in now ==> k in store && now[k] == store[k]
    requires Key(SentKey, v5, id) in store ==> Key(SentKey, v5, id) in now
    requires Key(RelKey, false, id) in now <==> Key(RelKey, false, id) in store && m.Some?
    ensures IdPersisted(v5, forgets, AgainIfAny(v5, m), now, id)
  {
    hide RestorePacket;
    if m.Some? {
      assert ToPublish(Again(v5, m.value), false) == ToPublish(m.value, false);
      assert ToPublish(Again(v5, m.value), true) == ToPublish(m.value, true);
    }
  }

  /** A message that waits for PUBCOMP is forgotten by an MQTT 5 restart. */
  lemma Forgets(v5: bool, out: seq<Message>, m: Option<Message>)
    requires m.Some? ==> m.value in out
    ensures v5 && m.Some? && m.value.awaiting == AwaitPubcomp ==> !NoneForgotten(v5, out)
  {
  }
}
