/** The order of outbound messages over whole runs: that of publication as long as the client does not stop; and exactly
    when a restart keeps it. */
module Ordering {
  import opened Bytes
  import opened Packets
  import opened Session
  import opened SendOrder
  import opened Recovery
  import opened Sender

  // ----- runs without a crash -----

  /** The last id assigned is short of lapping the oldest message. */
  predicate NotLapped(c: Client) {
    c.out == [] || Offset(c.out[0].id, c.last) < MAX_MSG_ID - 1
  }

  /** Messages are listed in the order sent. */
  predicate AsSent(ms: seq<Message>) {
    forall i, j :: 0 <= i < j < |ms| ==> ms[i].uid < ms[j].uid
  }

  /** The ids go once forward round the ring from the first message to the last id assigned. */
  predicate UpTo(ms: seq<Message>, last: int) {
    && CyclicOrder(ms) && AsSent(ms)
    && (ms != [] ==> 1 <= last <= MAX_MSG_ID && Offset(ms[0].id, ms[|ms| - 1].id) <= Offset(ms[0].id, last))
  }

  /** Places on the ring count on from any of them. */
  lemma OffsetsAdd(a: int, b: int, c: int)
    requires 1 <= a <= MAX_MSG_ID && 1 <= b <= MAX_MSG_ID && 1 <= c <= MAX_MSG_ID && Offset(a, b) <= Offset(a, c)
    ensures Offset(b, c) == Offset(a, c) - Offset(a, b)
  {
  }

  lemma OffsetOfNext(a: int, last: int)
    requires 1 <= a <= MAX_MSG_ID && 1 <= last <= MAX_MSG_ID && Offset(a, last) < MAX_MSG_ID - 1
    ensures Offset(a, Cyclic(last, 1)) == Offset(a, last) + 1
  {
  }

  lemma OffsetsBelow(ms: seq<Message>, last: int, i: int)
    requires UpTo(ms, last) && 0 <= i < |ms|
    ensures Offset(ms[0].id, ms[i].id) <= Offset(ms[0].id, last)
  {
  }

  /** The next id is the one after the last. */
  lemma NextIdFollows(ms: seq<Message>, last: int)
    requires ms != [] && ValidIds(ms) && UpTo(ms, last) && Offset(ms[0].id, last) < MAX_MSG_ID - 1
    ensures AssignMsgId(ms, last) == Cyclic(last, 1)
  {
    var id := Cyclic(last, 1);
    assert ms[0] in ms;
    OffsetOfNext(ms[0].id, last);
    forall m | m in ms
      ensures m.id != id
    {
      var i :| 0 <= i < |ms| && ms[i] == m;
      OffsetsBelow(ms, last, i);
    }
    assert !InUse(ms, id);
  }

  lemma SentNext(ms: seq<Message>, last: int, m: Message)
    requires ValidIds(ms) && UpTo(ms, last) && 0 <= last <= MAX_MSG_ID && m.id == AssignMsgId(ms, last)
    requires 1 <= m.id <= MAX_MSG_ID
    requires ms == [] || Offset(ms[0].id, last) < MAX_MSG_ID - 1
    requires forall x :: x in ms ==> x.uid < m.uid
    ensures UpTo(ms + [m], m.id)
  {
    if ms != [] {
      NextIdFollows(ms, last);
      assert ms[0] in ms;
      OffsetOfNext(ms[0].id, last);
      var us := ms + [m];
      forall i, j | 0 <= i < j < |us|
        ensures Offset(us[0].id, us[i].id) < Offset(us[0].id, us[j].id) && us[i].uid < us[j].uid
      {
        if j == |ms| { OffsetsBelow(ms, last, i); }
      }
    }
  }

  /** Places counted from a later message. */
  lemma FromThere(ms: seq<Message>, last: int, f: int, k: int)
    requires ValidIds(ms) && UpTo(ms, last) && 0 <= f <= k < |ms|
    ensures Offset(ms[f].id, ms[k].id) == Offset(ms[0].id, ms[k].id) - Offset(ms[0].id, ms[f].id)
    ensures Offset(ms[f].id, last) == Offset(ms[0].id, last) - Offset(ms[0].id, ms[f].id)
  {
    assert ms[0] in ms && ms[f] in ms && ms[k] in ms;
    OffsetsBelow(ms, last, f);
    OffsetsAdd(ms[0].id, ms[f].id, ms[k].id);
    OffsetsAdd(ms[0].id, ms[f].id, last);
  }

  lemma Removed(ms: seq<Message>, last: int, i: int)
    requires ValidIds(ms) && UpTo(ms, last) && 0 <= i < |ms|
    ensures UpTo(RemoveAt(ms, i), last)
  {
    hide Offset, ValidIds;
    var us, f := RemoveAt(ms, i), if i == 0 then 1 else 0;
    if us != [] {
      forall k, l | 0 <= k < l < |us|
        ensures Offset(us[0].id, us[k].id) < Offset(us[0].id, us[l].id) && us[k].uid < us[l].uid
      {
        var k', l' := if k < i then k else k + 1, if l < i then l else l + 1;
        assert us[0] == ms[f] && us[k] == ms[k'] && us[l] == ms[l'];
        FromThere(ms, last, f, k');
        FromThere(ms, last, f, l');
      }
      var n := if i == |ms| - 1 then i - 1 else |ms| - 1;
      assert us[0] == ms[f] && us[|us| - 1] == ms[n];
      FromThere(ms, last, f, n);
      OffsetsBelow(ms, last, n);
    }
  }

  lemma Advanced(ms: seq<Message>, last: int, i: int, a: Awaiting)
    requires UpTo(ms, last) && 0 <= i < |ms|
    ensures UpTo(ms[i := ms[i].(awaiting := a)], last)
  {
  }

  predicate IsCrash(e: Event) {
    e.Crash? || e.CrashInPubcomp?
  }

  lemma {:induction false} EventKeepsOrder(r: Run, e: Event)
    requires Inv(r) && Apply(r, e).Some? && !IsCrash(e) && UpTo(r.client.out, r.client.last)
    requires e.Publish? ==> NotLapped(r.client)
    ensures var c := Apply(r, e).value.client; UpTo(c.out, c.last)
  {
    hide Persisted, LogOk, LogDup, LogOrdered, LogMatches, MessageOk;
    hide AssignMsgId, Record, RelRecord, UpTo, Restart, Session.Retry;
    var c := r.client;
    RunIds(r);
    match e {
      case Publish(_, _, _, _, _) =>
        var id := AssignMsgId(c.out, c.last);
        AssignsFirstFree(c.out, c.last);
        SentNext(c.out, c.last, NewMessage(r, e, id));
      case Puback(id) =>
        var i := IndexOf(c.out, id);
        if i >= 0 { Removed(c.out, c.last, i); }
      case Pubcomp(id) =>
        var i := IndexOf(c.out, id);
        if i >= 0 { Removed(c.out, c.last, i); }
      case Pubrec(id, refused) =>
        var i := IndexOf(c.out, id);
        if i >= 0 {
          Removed(c.out, c.last, i);
          Advanced(c.out, c.last, i, AwaitPubcomp);
        }
      case Retry(i) => RetryKeeps(c, c.out[i]);
      case CleanSession => NoneInOrder();
    }
  }

  lemma NoneInOrder()
    ensures UpTo([], 0)
  {
  }

  lemma RetryKeeps(c: Client, m: Message)
    ensures var d := Session.Retry(c, m).0; d.out == c.out && d.last == c.last
  {
  }

  lemma RunIds(r: Run)
    requires Inv(r)
    ensures ValidIds(r.client.out) && 0 <= r.client.last <= MAX_MSG_ID
    ensures forall x :: x in r.client.out ==> x.uid < |r.published|
  {
    hide LogOk, LogDup, LogOrdered, LogMatches, NoOrphans, InPersisted, MessageOk;
    MembersPersisted(r.client.v5, r.forgot, r.client.out, r.client.store);
  }

  predicate CrashFree(events: seq<Event>) {
    forall k :: 0 <= k < |events| ==> !IsCrash(events[k])
  }

  lemma SentRemoved(ms: seq<Message>, i: int)
    requires AsSent(ms) && 0 <= i < |ms|
    ensures AsSent(RemoveAt(ms, i))
  {
    var us := RemoveAt(ms, i);
    assert forall k :: 0 <= k < |us| ==> us[k] == ms[if k < i then k else k + 1];
  }

  lemma SentAdvanced(ms: seq<Message>, i: int)
    requires AsSent(ms) && 0 <= i < |ms|
    ensures AsSent(ms[i := ms[i].(awaiting := AwaitPubcomp)])
  {
  }

  lemma SentAppended(ms: seq<Message>, m: Message)
    requires AsSent(ms) && forall x :: x in ms ==> x.uid < m.uid
    ensures AsSent(ms + [m])
  {
  }

  lemma EventKeepsSent(r: Run, e: Event)
    requires Inv(r) && Apply(r, e).Some? && !IsCrash(e) && AsSent(r.client.out)
    ensures AsSent(Apply(r, e).value.client.out)
  {
    hide Persisted, LogOk, LogDup, LogOrdered, LogMatches, MessageOk;
    hide AssignMsgId, Record, RelRecord, Restart, Session.Retry, AsSent, RemoveAt;
    var c := r.client;
    RunIds(r);
    match e {
      case Publish(_, _, _, _, _) => SentAppended(c.out, NewMessage(r, e, AssignMsgId(c.out, c.last)));
      case Puback(id) =>
        var i := IndexOf(c.out, id);
        if i >= 0 { SentRemoved(c.out, i); }
      case Pubcomp(id) =>
        var i := IndexOf(c.out, id);
        if i >= 0 { SentRemoved(c.out, i); }
      case Pubrec(id, refused) =>
        var i := IndexOf(c.out, id);
        if i >= 0 {
          SentRemoved(c.out, i);
          SentAdvanced(c.out, i);
        }
      case Retry(i) => RetryKeeps(c, c.out[i]);
      case CleanSession => NoneInOrder();
    }
  }

  /** In every run without a crash, outboundMsgs is in the order of publication. */
  lemma {:induction false} OrderKept(v5: bool, events: seq<Event>)
    requires RunOf(v5, events).Some? && CrashFree(events)
    ensures AsSent(RunOf(v5, events).value.client.out)
    decreases |events|
  {
    hide Apply, Inv, AsSent;
    if |events| == 0 {
      NoneInOrder();
    } else {
      var n := |events| - 1;
      assert forall k :: 0 <= k < n ==> events[..n][k] == events[k];
      OrderKept(v5, events[..n]);
      EventKeepsSent(RunOf(v5, events[..n]).value, events[n]);
    }
  }

  /** No event is a crash, and the ids have not lapped when a publication is started. */
  ghost predicate Undisturbed(v5: bool, events: seq<Event>) {
    && CrashFree(events)
    && forall k :: 0 <= k < |events| && events[k].Publish? && RunOf(v5, events[..k]).Some? ==>
      NotLapped(RunOf(v5, events[..k]).value.client)
  }

  /** In a run without a crash in which the ids do not lap, they are in cyclic order too. */
  lemma {:induction false} CyclicKept(v5: bool, events: seq<Event>)
    requires RunOf(v5, events).Some? && Undisturbed(v5, events)
    ensures var c := RunOf(v5, events).value.client; UpTo(c.out, c.last)
    decreases |events|
  {
    hide Apply, Inv, UpTo, NotLapped;
    if |events| == 0 {
      NoneInOrder();
    } else {
      var n := |events| - 1;
      var before := events[..n];
      forall k | 0 <= k < n
        ensures before[k] == events[k] && before[..k] == events[..k]
      {
      }
      CyclicKept(v5, before);
      EventKeepsOrder(RunOf(v5, before).value, events[n]);
    }
  }

  // ----- a restart after such a run -----

  /** A set of messages has one listing in the order sent. */
  lemma {:induction false} SentUnique(a: seq<Message>, b: seq<Message>)
    requires AsSent(a) && AsSent(b) && SameMembers(a, b)
    ensures a == b
  {
    assert |b| > 0 ==> b[0] in b;
    if |a| > 0 {
      assert a[0] in b;
      var i :| 0 <= i < |b| && b[i] == a[0];
      assert b[0] in a;
      var j :| 0 <= j < |a| && a[j] == b[0];
      assert i == 0;
      forall x ensures x in a[1..] <==> x in b[1..] {
        assert x in a[1..] <==> x in a && x != a[0] by { assert a == [a[0]] + a[1..]; }
        assert x in b[1..] <==> x in b && x != b[0] by { assert b == [b[0]] + b[1..]; }
      }
      SentUnique(a[1..], b[1..]);
      assert a == [a[0]] + a[1..] && b == [b[0]] + b[1..];
    }
  }

  lemma SentAgain(v5: bool, ms: seq<Message>)
    requires AsSent(ms)
    ensures AsSent(AllAgain(v5, ms))
  {
  }

  /** A restart after any run without a crash keeps the order of publication if and only if the ids in flight are in
      cyclic order and the first of them follows the first largest gap. */
  lemma CrashKeepsOrder(v5: bool, events: seq<Event>, keys: seq<Key>)
    requires RunOf(v5, events).Some? && CrashFree(events) && Lists(keys, RunOf(v5, events).value.client.store)
    ensures var c := RunOf(v5, events).value.client; var d := Restart(v5, c.store, keys);
      d.Some? && (AsSent(d.value.out) <==> CyclicOrder(c.out) && FollowsLargestGap(c.out))
  {
    hide RunOf, Restart, AsSent, AllAgain, CyclicOrder, FollowsLargestGap, SameMembers;
    OrderKept(v5, events);
    CrashRebuildsSession(v5, events, keys);
    var out := RunOf(v5, events).value.client.out;
    var d := Restart(v5, RunOf(v5, events).value.client.store, keys).value;
    SentAgain(v5, out);
    if AsSent(d.out) { SentUnique(d.out, AllAgain(v5, out)); }
  }

  /** So it does if the ids have not lapped and those in flight span less than half the ring. */
  lemma HalfRingKeepsOrder(v5: bool, events: seq<Event>, keys: seq<Key>)
    requires RunOf(v5, events).Some? && Undisturbed(v5, events)
    requires Lists(keys, RunOf(v5, events).value.client.store) && SpansLessThanHalf(RunOf(v5, events).value.client.out)
    ensures var c := RunOf(v5, events).value.client; var d := Restart(v5, c.store, keys);
      d.Some? && d.value.out == AllAgain(v5, c.out) && AsSent(d.value.out)
  {
    hide Apply, Restart, SpansLessThanHalf, CyclicOrder, CrashFree, FollowsLargestGap;
    CyclicKept(v5, events);
    IdsStayDistinct(v5, events);
    HalfFollowsLargestGap(RunOf(v5, events).value.client.out);
    CrashRebuildsSession(v5, events, keys);
  }

  // ----- after a restart -----

  /** A restarted client assigns ids from 1 on again. With id 2 in flight the next publication gets id 1, and the next
      restart puts it first. */
  lemma RestartedLosesOrder(r: Run, e: Event, keys: seq<Key>)
    requires Inv(r) && |r.client.out| == 1 && r.client.out[0].id == 2 && r.client.last == 0
    requires e.Publish? && Apply(r, e).Some? && Lists(keys, Apply(r, e).value.client.store)
    ensures var c := Apply(r, e).value.client;
      && |c.out| == 2 && c.out[0] == r.client.out[0] && c.out[1].id == 1 && AsSent(c.out)
      && var d := Restart(c.v5, c.store, keys); d.Some? && d.value.out == AllAgain(c.v5, [c.out[1], c.out[0]])
  {
    hide MessageOk, Restart, Record, LogOk, LogDup, LogOrdered, LogMatches;
    hide OutPersisted, InPersisted, NoOrphans, AllAgain;
    RunIds(r);
    ApplyKeepsInv(r, e);
    var a := r.client.out[0];
    assert r.client.out == [a] && a in r.client.out;
    assert AssignMsgId([a], 0) == 1 by { assert !InUse([a], 1); }
    var c := Apply(r, e).value.client;
    var b := c.out[1];
    assert c.out == [a, b];
    Swapped(c.v5, Apply(r, e).value.forgot, a, b, c.store);
    RestartRecovers(c.v5, Apply(r, e).value.forgot, [b, a], c.store, keys);
    HalfFollowsLargestGap([b, a]);
  }

  lemma Swapped(v5: bool, forgot: bool, a: Message, b: Message, store: map<Key, Stored>)
    requires OutPersisted(v5, forgot, [a, b], store) && a.id != b.id
    ensures OutPersisted(v5, forgot, [b, a], store)
    ensures b.id == 1 && a.id == 2 ==> ValidIds([b, a]) && CyclicOrder([b, a]) && SpansLessThanHalf([b, a])
  {
    hide MessageOk, Holds, RestorePacket;
    forall id
      ensures Lookup([b, a], id) == Lookup([a, b], id)
    {
      LookupAppend([a], b, id);
      LookupAppend([b], a, id);
      assert [a] + [b] == [a, b] && [b] + [a] == [b, a];
    }
    forall id
      ensures IdPersisted(v5, forgot, Lookup([b, a], id), store, id)
    {
      assert IdPersisted(v5, forgot, Lookup([a, b], id), store, id);
    }
  }

  function Its(e: Event, id: int, uid: nat): Message
    requires e.Publish?
  {
    Message(id, e.qos, e.retain, e.topic, e.payload, e.properties, if e.qos == 2 then AwaitPubrec else Unset, uid)
  }

  lemma RunStep(v5: bool, events: seq<Event>, e: Event, r: Run)
    requires RunOf(v5, events) == Some(r)
    ensures Inv(r) && r.client.v5 == v5 && 0 <= r.client.last <= MAX_MSG_ID && RunOf(v5, events + [e]) == Apply(r, e)
  {
    hide Apply, Inv;
    assert (events + [e])[..|events|] == events;
    RunIds(r);
  }

  lemma Published(r: Run, e: Event, id: int)
    requires 0 <= r.client.last <= MAX_MSG_ID && e.Publish? && id == AssignMsgId(r.client.out, r.client.last) && id != 0
    requires MessageOk(r.client.v5, Its(e, id, |r.published|))
    ensures Apply(r, e).Some?
    ensures var t := Apply(r, e).value;
      t.client.out == r.client.out + [Its(e, id, |r.published|)] && t.client.last == id
      && |t.published| == |r.published| + 1
  {
    hide MessageOk, AssignMsgId, Record;
  }

  lemma Acknowledged(r: Run, m: Message, n: Message)
    requires 0 <= r.client.last <= MAX_MSG_ID && r.client.out == [m, n] && m.qos == 1
    ensures var t := Apply(r, Event.Puback(m.id));
      t.Some? && t.value.client.out == [n] && |t.value.published| == |r.published|
  {
  }

  /** Two publications, the first acknowledged, then a stop: a run that leaves a restarted client with id 2
      in flight. */
  lemma RestartedWithId2(v5: bool, e: Event, keys: seq<Key>) returns (events: seq<Event>)
    requires e.Publish? && e.qos == 1 && MessageOk(v5, Its(e, 1, 0))
    requires var events := [e] + [e] + [Event.Puback(1)];
      RunOf(v5, events).Some? ==> Lists(keys, RunOf(v5, events).value.client.store)
    ensures events == [e] + [e] + [Event.Puback(1)] + [Event.Crash(keys)] && RunOf(v5, events).Some?
    ensures var r := RunOf(v5, events).value; r.client.out == [Its(e, 2, 1)] && r.client.last == 0
  {
    hide MessageOk, RunOf, Apply, Restart, AssignMsgId, Inv, AllAgain;
    events := [e] + [e] + [Event.Puback(1)] + [Event.Crash(keys)];
    var m, n := Its(e, 1, 0), Its(e, 2, 1);
    SameOk(v5, e, 2, 1);
    FirstIds(m);
    EmptyRun(v5);
    var r0 := Start(v5);
    assert [] + [e] == [e] && [] + [m] == [m] && [m] + [n] == [m, n];
    RunStep(v5, [], e, r0);
    Published(r0, e, 1);
    var r1 := Apply(r0, e).value;
    RunStep(v5, [e], e, r1);
    Published(r1, e, 2);
    var r2 := Apply(r1, e).value;
    RunStep(v5, [e] + [e], Event.Puback(1), r2);
    Acknowledged(r2, m, n);
    var r3 := Apply(r2, Event.Puback(1)).value;
    RunStep(v5, [e] + [e] + [Event.Puback(1)], Event.Crash(keys), r3);
    RestartedAlone(r3, n, keys);
  }

  lemma RestartedAlone(r: Run, n: Message, keys: seq<Key>)
    requires Inv(r) && 0 <= r.client.last <= MAX_MSG_ID && r.client.out == [n] && n.qos == 1
    requires Lists(keys, r.client.store)
    requires n.awaiting == Unset
    ensures var t := Apply(r, Event.Crash(keys)); t.Some? && t.value.client.out == [n] && t.value.client.last == 0
  {
    hide LogInv, OutPersisted, InPersisted, NoOrphans, Restart, InboundFromStore, AllAgain;
    RestartRecovers(r.client.v5, r.forgot, [n], r.client.store, keys);
    NothingForgotten(r.client.v5, [n]);
    RunIds(r);
    assert CyclicOrder([n]) && SpansLessThanHalf([n]);
    HalfFollowsLargestGap([n]);
  }

  lemma FirstIds(m: Message)
    requires m.id == 1
    ensures AssignMsgId([], 0) == 1 && AssignMsgId([m], 1) == 2
  {
    assert !InUse([m], 2);
  }

  lemma EmptyRun(v5: bool)
    ensures RunOf(v5, []) == Some(Start(v5))
  {
  }

  // ----- a run without a crash after which a restart does not keep the order -----

  /** A publication, and then n more that are acknowledged at once. */
  function Rounds(e: Event, n: nat): seq<Event> {
    if n == 0 then [] + [e] else Rounds(e, n - 1) + [e] + [Event.Puback(n + 1)]
  }

  lemma {:induction false} RoundsLeave(v5: bool, e: Event, n: nat)
    requires e.Publish? && e.qos == 1 && n + 1 <= MAX_MSG_ID
    requires MessageOk(v5, Its(e, 1, 0))
    ensures RunOf(v5, Rounds(e, n)).Some? && CrashFree(Rounds(e, n))
    ensures var c := RunOf(v5, Rounds(e, n)).value.client; c.out == [Its(e, 1, 0)] && c.last == n + 1
  {
    hide MessageOk, RunOf, Apply, AssignMsgId, Inv;
    var m := Its(e, 1, 0);
    if n == 0 {
      EmptyRun(v5);
      FirstIds(m);
      assert [] + [m] == [m];
      RunStep(v5, [], e, Start(v5));
      Published(Start(v5), e, 1);
    } else {
      RoundsLeave(v5, e, n - 1);
      var r := RunOf(v5, Rounds(e, n - 1)).value;
      SameOk(v5, e, n + 1, |r.published|);
      FreeAfter(m, n);
      RunStep(v5, Rounds(e, n - 1), e, r);
      Published(r, e, n + 1);
      var t := Apply(r, e).value;
      RunStep(v5, Rounds(e, n - 1) + [e], Event.Puback(n + 1), t);
      assert t.client.out == [m, Its(e, n + 1, |r.published|)];
      AcknowledgedLast(t, m, Its(e, n + 1, |r.published|));
    }
  }

  /** Whether a message can be sent does not depend on its id. */
  lemma SameOk(v5: bool, e: Event, id: int, uid: nat)
    requires e.Publish? && MessageOk(v5, Its(e, 1, 0)) && 1 <= id <= MAX_MSG_ID
    ensures MessageOk(v5, Its(e, id, uid))
  {
  }

  lemma FreeAfter(m: Message, n: nat)
    requires m.id == 1 && 1 <= n < MAX_MSG_ID
    ensures AssignMsgId([m], n) == n + 1
  {
    assert !InUse([m], n + 1);
  }

  lemma AcknowledgedLast(r: Run, m: Message, n: Message)
    requires 0 <= r.client.last <= MAX_MSG_ID && r.client.out == [m, n] && n.qos == 1 && m.id != n.id
    ensures var t := Apply(r, Event.Puback(n.id));
      t.Some? && t.value.client.out == [m] && t.value.client.last == r.client.last
  {
    LookupUnique(r.client.out, 1);
    assert IndexOf([m, n], n.id) == 1;
    assert RemoveAt([m, n], 1) == [m];
  }

  /** The first of more than 32768 publications is not acknowledged, all but the last of the others are: the larger gap
      is then between the two ids in flight, and a restart puts the later message first. */
  lemma FarApartLosesOrder(v5: bool, e: Event, n: nat, keys: seq<Key>)
    requires e.Publish? && e.qos == 1 && 32767 <= n && n + 2 <= MAX_MSG_ID
    requires MessageOk(v5, Its(e, 1, 0))
    requires var events := Rounds(e, n) + [e];
      RunOf(v5, events).Some? ==> Lists(keys, RunOf(v5, events).value.client.store)
    ensures var events := Rounds(e, n) + [e];
      && CrashFree(events) && RunOf(v5, events).Some?
      && var c := RunOf(v5, events).value.client;
      var d := Restart(v5, c.store, keys);
      d.Some? && AsSent(c.out) && !AsSent(d.value.out)
  {
    hide MessageOk, RunOf, Apply, AssignMsgId, Inv, Restart, AsSent, Rounds;
    RoundsLeave(v5, e, n);
    var r := RunOf(v5, Rounds(e, n)).value;
    SameOk(v5, e, n + 2, |r.published|);
    FreeAfter(Its(e, 1, 0), n + 1);
    RunStep(v5, Rounds(e, n), e, r);
    Published(r, e, n + 2);
    var events := Rounds(e, n) + [e];
    OrderKept(v5, events);
    CrashKeepsOrder(v5, events, keys);
    TooFarApart(RunOf(v5, events).value.client.out);
  }

  lemma TooFarApart(out: seq<Message>)
    requires |out| == 2 && out[0].id == 1 && 32769 <= out[1].id
    ensures !FollowsLargestGap(out)
  {
    assert Unwrapped(out, 1) == 2;
    assert out[2..] + out[..2] == out;
    assert Gap(out, 1) > Gap(out, 0);
  }
}
