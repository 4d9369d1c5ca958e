/** Stored publications and the references to them, as MQTTProtocolClient.c keeps them for all clients together. */
module Publications {
  import opened Bytes
  import opened Session
  import opened Packets
  import Properties

  /** A stored publication, shared by the records that point to it. */
  datatype Publication = Publication(topic: seq<byte>, payload: seq<byte>, refcount: int)

  /** state.publications, by address. */
  type Pubs = map<nat, Publication>

  /** A Messages structure: as a Session.Message, but with a pointer to its publication, or NULL. */
  datatype Rec = Rec(
    id: int, qos: int, retain: bool, properties: seq<Properties.Property>, awaiting: Awaiting, uid: nat,
    publish: Option<nat>)

  /** A Clients structure. */
  datatype Conn = Conn(v5: bool, out: seq<Rec>, inb: seq<Rec>, last: int, store: map<Key, Stored>)

  /** A QoS 0 PUBLISH whose write is not complete. */
  datatype PendingWrite = PendingWrite(socket: int, p: nat)

  // ----- references -----

  function RefOf(r: Rec): multiset<nat> {
    if r.publish.Some? then multiset{r.publish.value} else multiset{}
  }

  function RefsOf(rs: seq<Rec>): multiset<nat> {
    if |rs| == 0 then multiset{} else RefOf(rs[0]) + RefsOf(rs[1..])
  }

  function ConnRefs(c: Conn): multiset<nat> {
    RefsOf(c.out) + RefsOf(c.inb)
  }

  function AllRefs(cs: seq<Conn>): multiset<nat> {
    if |cs| == 0 then multiset{} else ConnRefs(cs[0]) + AllRefs(cs[1..])
  }

  function PendingRefs(ps: seq<PendingWrite>): multiset<nat> {
    if |ps| == 0 then multiset{} else multiset{ps[0].p} + PendingRefs(ps[1..])
  }

  /** Every reference there is. */
  function Total(cs: seq<Conn>, ps: seq<PendingWrite>): multiset<nat> {
    AllRefs(cs) + PendingRefs(ps)
  }

  /** The stored publications are exactly those referred to, and each count is its number of references. */
  predicate Counted(pubs: Pubs, refs: multiset<nat>) {
    && (forall r :: r in pubs ==> r in refs && pubs[r].refcount == refs[r])
    && (forall r :: r in refs ==> r in pubs)
  }

  lemma {:induction false} RefsAppend(a: seq<Rec>, b: seq<Rec>)
    ensures RefsOf(a + b) == RefsOf(a) + RefsOf(b)
  {
    if |a| == 0 {
      assert a + b == b;
    } else {
      assert (a + b)[1..] == a[1..] + b;
      RefsAppend(a[1..], b);
    }
  }

  lemma RefsOne(r: Rec)
    ensures RefsOf([r]) == RefOf(r)
  {
    assert [r][1..] == [];
  }

  lemma RefsSplit(rs: seq<Rec>, i: int)
    requires 0 <= i < |rs|
    ensures RefsOf(rs) == RefsOf(rs[..i] + rs[i + 1..]) + RefOf(rs[i])
  {
    hide RefsOf, RefOf;
    var a, b := rs[..i], rs[i + 1..];
    assert rs == (a + [rs[i]]) + b;
    RefsAppend(a + [rs[i]], b);
    RefsAdd(a, rs[i]);
    RefsAppend(a, b);
    Reordered(RefsOf(a), RefOf(rs[i]), RefsOf(b));
  }

  lemma RefsAdd(rs: seq<Rec>, r: Rec)
    ensures RefsOf(rs + [r]) == RefsOf(rs) + RefOf(r)
  {
    RefsAppend(rs, [r]);
    RefsOne(r);
  }

  lemma Reordered(x: multiset<nat>, y: multiset<nat>, z: multiset<nat>)
    ensures x + y + z == x + z + y
  {
  }

  lemma RefsInsert(rs: seq<Rec>, i: int, r: Rec)
    requires 0 <= i <= |rs|
    ensures RefsOf(rs[..i] + [r] + rs[i..]) == RefsOf(rs) + RefOf(r)
  {
    hide RefsOf, RefOf;
    var a, b := rs[..i], rs[i..];
    RefsAppend(a + [r], b);
    RefsAdd(a, r);
    RefsAppend(a, b);
    assert a + b == rs;
    Reordered(RefsOf(a), RefOf(r), RefsOf(b));
  }

  lemma RefsUpdate(rs: seq<Rec>, i: int, r: Rec)
    requires 0 <= i < |rs|
    ensures RefsOf(rs[i := r]) == RefsOf(rs) - RefOf(rs[i]) + RefOf(r)
  {
    RefsSplit(rs, i);
    RefsSplit(rs[i := r], i);
    assert rs[i := r][..i] == rs[..i] && rs[i := r][i + 1..] == rs[i + 1..];
  }

  lemma {:induction false} RefsMember(rs: seq<Rec>, i: int)
    requires 0 <= i < |rs|
    ensures RefOf(rs[i]) <= RefsOf(rs)
  {
    RefsSplit(rs, i);
  }

  lemma {:induction false} AllRefsSplit(cs: seq<Conn>, i: int)
    requires 0 <= i < |cs|
    ensures AllRefs(cs) == ConnRefs(cs[i]) + AllRefs(cs[..i] + cs[i + 1..])
  {
    hide ConnRefs;
    var rest := cs[..i] + cs[i + 1..];
    if i == 0 {
      assert rest == cs[1..];
    } else {
      AllRefsSplit(cs[1..], i - 1);
      assert rest[0] == cs[0] && rest[1..] == cs[1..][..i - 1] + cs[1..][i..];
    }
  }

  lemma AllRefsUpdate(cs: seq<Conn>, i: int, c: Conn)
    requires 0 <= i < |cs|
    ensures ConnRefs(cs[i]) <= AllRefs(cs)
    ensures AllRefs(cs[i := c]) == AllRefs(cs) - ConnRefs(cs[i]) + ConnRefs(c)
  {
    hide ConnRefs, AllRefs;
    AllRefsSplit(cs, i);
    AllRefsSplit(cs[i := c], i);
    assert cs[i := c][..i] == cs[..i] && cs[i := c][i + 1..] == cs[i + 1..];
  }

  /** Two clients' references are counted separately. */
  lemma {:induction false} TwoClients(cs: seq<Conn>, i: int, j: int)
    requires 0 <= i < |cs| && 0 <= j < |cs| && i != j
    ensures ConnRefs(cs[i]) + ConnRefs(cs[j]) <= AllRefs(cs)
  {
    var c := cs[i].(out := [], inb := []);
    AllRefsUpdate(cs, i, c);
    AllRefsUpdate(cs[i := c], j, c);
    assert cs[i := c][j] == cs[j] && ConnRefs(c) == multiset{};
  }

  lemma {:induction false} PendingSplit(ps: seq<PendingWrite>, i: int)
    requires 0 <= i < |ps|
    ensures PendingRefs(ps) == PendingRefs(ps[..i] + ps[i + 1..]) + multiset{ps[i].p}
  {
    if i == 0 {
      assert ps[..0] + ps[1..] == ps[1..];
    } else {
      PendingSplit(ps[1..], i - 1);
      WithoutLater(ps, i);
    }
  }

  lemma WithoutLater(ps: seq<PendingWrite>, i: int)
    requires 1 <= i < |ps|
    ensures ps[1..][i - 1] == ps[i]
    ensures ps[..i] + ps[i + 1..] == [ps[0]] + (ps[1..][..i - 1] + ps[1..][i..])
    ensures var rest := ps[..i] + ps[i + 1..]; rest[0] == ps[0] && rest[1..] == ps[1..][..i - 1] + ps[1..][i..]
  {
  }

  lemma PendingAdd(ps: seq<PendingWrite>, w: PendingWrite)
    ensures PendingRefs(ps + [w]) == PendingRefs(ps) + multiset{w.p}
  {
    PendingSplit(ps + [w], |ps|);
    assert (ps + [w])[..|ps|] + (ps + [w])[|ps| + 1..] == ps;
  }

  // ----- what the records stand for -----

  /** A record shows a message: its own fields, and its publication's contents where it has one. */
  predicate Shows(pubs: Pubs, r: Rec, m: Message) {
    && r.id == m.id && r.qos == m.qos && r.retain == m.retain && r.properties == m.properties
    && r.awaiting == m.awaiting && r.uid == m.uid
    && (r.publish.Some? ==>
          r.publish.value in pubs && pubs[r.publish.value].topic == m.topic
          && pubs[r.publish.value].payload == m.payload)
  }

  predicate ShowsAll(pubs: Pubs, rs: seq<Rec>, ms: seq<Message>) {
    |rs| == |ms| && forall i :: 0 <= i < |rs| ==> Shows(pubs, rs[i], ms[i])
  }

  predicate Full(rs: seq<Rec>) {
    forall i :: 0 <= i < |rs| ==> rs[i].publish.Some?
  }

  /** A Clients structure stands for a session. Only an inbound MQTT 5 record, whose publication
      has been passed on at once, may be without one. */
  predicate Represents(pubs: Pubs, c: Conn, s: Client) {
    && c.v5 == s.v5 && c.last == s.last && c.store == s.store
    && ShowsAll(pubs, c.out, s.out) && ShowsAll(pubs, c.inb, s.inb)
    && Full(c.out) && (!c.v5 ==> Full(c.inb))
  }

  /** Publications kept have the contents they had. */
  predicate SameContents(pubs: Pubs, pubs': Pubs) {
    forall r :: r in pubs && r in pubs' ==> pubs'[r].topic == pubs[r].topic && pubs'[r].payload == pubs[r].payload
  }

  lemma ShowsKept(pubs: Pubs, pubs': Pubs, rs: seq<Rec>, ms: seq<Message>)
    requires ShowsAll(pubs, rs, ms) && SameContents(pubs, pubs') && forall r :: r in RefsOf(rs) ==> r in pubs'
    ensures ShowsAll(pubs', rs, ms)
  {
    forall i | 0 <= i < |rs|
      ensures Shows(pubs', rs[i], ms[i])
    {
      RefsMember(rs, i);
      assert Shows(pubs, rs[i], ms[i]);
      assert rs[i].publish.Some? ==> rs[i].publish.value in RefOf(rs[i]);
    }
  }

  /** The counts, the sessions the clients stand for, and that no inbound record shares its publication. */
  predicate Conserved(pubs: Pubs, next: nat, cs: seq<Conn>, ps: seq<PendingWrite>, ms: seq<Client>) {
    && Counted(pubs, Total(cs, ps)) && (forall r :: r in pubs ==> r < next)
    && |ms| == |cs| && (forall i :: 0 <= i < |cs| ==> Represents(pubs, cs[i], ms[i]))
    && (forall i :: 0 <= i < |cs| ==> Alone(cs[i], Total(cs, ps)))
  }

  predicate Alone(c: Conn, refs: multiset<nat>) {
    forall r :: r in RefsOf(c.inb) ==> refs[r] == 1
  }

  lemma TotalUpdate(cs: seq<Conn>, ps: seq<PendingWrite>, i: int, c: Conn)
    requires 0 <= i < |cs|
    ensures ConnRefs(cs[i]) <= Total(cs, ps)
    ensures Total(cs[i := c], ps) == Total(cs, ps) - ConnRefs(cs[i]) + ConnRefs(c)
  {
    AllRefsUpdate(cs, i, c);
  }

  /** A step of one client keeps everything, if it keeps the counts and what that client stands for,
      and refers to no more of the publications that other clients hold inbound. */
  lemma ClientSteps(pubs: Pubs, pubs': Pubs, next: nat, next': nat, cs: seq<Conn>, ps: seq<PendingWrite>,
      ms: seq<Client>,
                    i: int, c: Conn, s: Client)
    requires 0 <= i < |cs| && Conserved(pubs, next, cs, ps, ms) && next <= next'
    requires Counted(pubs', Total(cs[i := c], ps)) && (forall r :: r in pubs' ==> r < next')
    requires SameContents(pubs, pubs') && Represents(pubs', c, s) && Alone(c, Total(cs[i := c], ps))
    requires forall r, j :: 0 <= j < |cs| && j != i && r in RefsOf(cs[j].inb) ==>
      Total(cs[i := c], ps)[r] <= Total(cs, ps)[r]
    ensures Conserved(pubs', next', cs[i := c], ps, ms[i := s])
  {
    hide Represents, RefsOf, AllRefs, Counted, Alone, Total;
    var cs', ms' := cs[i := c], ms[i := s];
    forall j | 0 <= j < |cs'|
      ensures Represents(pubs', cs'[j], ms'[j]) && Alone(cs'[j], Total(cs', ps))
    {
      if j != i {
        OtherClient(pubs, pubs', cs', ps, j, ms[j]);
        OtherAlone(cs, ps, i, c, j);
      }
    }
  }

  lemma OtherClient(pubs: Pubs, pubs': Pubs, cs: seq<Conn>, ps: seq<PendingWrite>, j: int, s: Client)
    requires 0 <= j < |cs| && Represents(pubs, cs[j], s) && SameContents(pubs, pubs') && Counted(pubs', Total(cs, ps))
    ensures Represents(pubs', cs[j], s)
  {
    hide ShowsAll, RefsOf, AllRefs;
    AllRefsUpdate(cs, j, cs[j]);
    assert forall r :: r in RefsOf(cs[j].out) || r in RefsOf(cs[j].inb) ==> r in ConnRefs(cs[j]);
    assert forall r :: r in ConnRefs(cs[j]) ==> r in Total(cs, ps);
    ShowsKept(pubs, pubs', cs[j].out, s.out);
    ShowsKept(pubs, pubs', cs[j].inb, s.inb);
  }

  lemma OtherAlone(cs: seq<Conn>, ps: seq<PendingWrite>, i: int, c: Conn, j: int)
    requires 0 <= i < |cs| && 0 <= j < |cs| && i != j && Alone(cs[j], Total(cs, ps))
    requires forall r :: r in RefsOf(cs[j].inb) ==> Total(cs[i := c], ps)[r] <= Total(cs, ps)[r]
    ensures Alone(cs[j], Total(cs[i := c], ps))
  {
    AllRefsUpdate(cs[i := c], j, cs[j]);
    hide RefsOf, AllRefs;
    forall r | r in RefsOf(cs[j].inb)
      ensures Total(cs[i := c], ps)[r] == 1
    {
      assert r in ConnRefs(cs[j]) && r in AllRefs(cs[i := c]);
    }
  }

  // ----- lists of records and of messages, side by side -----

  lemma ShowsRemove(pubs: Pubs, rs: seq<Rec>, ms: seq<Message>, k: int)
    requires ShowsAll(pubs, rs, ms) && 0 <= k < |rs|
    ensures ShowsAll(pubs, rs[..k] + rs[k + 1..], RemoveAt(ms, k))
    ensures Full(rs) ==> Full(rs[..k] + rs[k + 1..])
  {
    var rs', ms' := rs[..k] + rs[k + 1..], RemoveAt(ms, k);
    forall j | 0 <= j < |rs'|
      ensures Shows(pubs, rs'[j], ms'[j]) && (Full(rs) ==> rs'[j].publish.Some?)
    {
      var o := if j < k then j else j + 1;
      assert rs'[j] == rs[o] && ms'[j] == ms[o];
    }
  }

  lemma ShowsInsert(pubs: Pubs, rs: seq<Rec>, ms: seq<Message>, k: int, r: Rec, m: Message)
    requires ShowsAll(pubs, rs, ms) && 0 <= k <= |rs| && Shows(pubs, r, m)
    ensures ShowsAll(pubs, rs[..k] + [r] + rs[k..], ms[..k] + [m] + ms[k..])
    ensures Full(rs) && r.publish.Some? ==> Full(rs[..k] + [r] + rs[k..])
  {
    var rs', ms' := rs[..k] + [r] + rs[k..], ms[..k] + [m] + ms[k..];
    forall j | 0 <= j < |rs'|
      ensures Shows(pubs, rs'[j], ms'[j]) && (Full(rs) && r.publish.Some? ==> rs'[j].publish.Some?)
    {
      if j < k {
        assert rs'[j] == rs[j] && ms'[j] == ms[j];
      } else if j > k {
        assert rs'[j] == rs[j - 1] && ms'[j] == ms[j - 1];
      }
    }
  }

  lemma ShowsUpdate(pubs: Pubs, rs: seq<Rec>, ms: seq<Message>, k: int, r: Rec, m: Message)
    requires ShowsAll(pubs, rs, ms) && 0 <= k < |rs| && Shows(pubs, r, m)
    ensures ShowsAll(pubs, rs[k := r], ms[k := m])
    ensures Full(rs) && r.publish.Some? ==> Full(rs[k := r])
  {
  }

  lemma ShowsIds(pubs: Pubs, rs: seq<Rec>, ms: seq<Message>)
    requires ShowsAll(pubs, rs, ms)
    ensures forall i :: 0 <= i < |rs| ==> rs[i].id == ms[i].id
  {
    forall i | 0 <= i < |rs|
      ensures rs[i].id == ms[i].id
    {
      assert Shows(pubs, rs[i], ms[i]);
    }
  }

  // ----- the ways a client changes -----

  /** The client, after its outbound record k is gone. */
  function Completed(c: Conn, k: int): Conn
    requires 0 <= k < |c.out|
  {
    c.(out := c.out[..k] + c.out[k + 1..], store := c.store - SentKeys(c.out[k].id))
  }

  /** An outbound record goes, and with it its reference. */
  lemma OutGone(pubs: Pubs, pubs': Pubs, next: nat, cs: seq<Conn>, ps: seq<PendingWrite>, ms: seq<Client>,
      i: int, k: int)
    requires Conserved(pubs, next, cs, ps, ms) && 0 <= i < |cs| && 0 <= k < |cs[i].out|
    requires Counted(pubs', Total(cs, ps) - RefOf(cs[i].out[k])) && SameContents(pubs, pubs') && pubs'.Keys <= pubs.Keys
    ensures |ms[i].out| == |cs[i].out|
    ensures Conserved(pubs', next, cs[i := Completed(cs[i], k)], ps, ms[i := Complete(ms[i], k)])
  {
    hide RefsOf, AllRefs, PendingRefs, Counted, RefOf, Shows;
    var c, s := cs[i], ms[i];
    var c' := Completed(c, k);
    RefsSplit(c.out, k);
    TotalUpdate(cs, ps, i, c');
    Less(Total(cs, ps), RefsOf(c'.out), RefsOf(c.inb), RefOf(c.out[k]));
    assert Total(cs[i := c'], ps) == Total(cs, ps) - RefOf(c.out[k]);
    assert Represents(pubs', c', Complete(s, k)) by {
      assert Represents(pubs, c, s);
      ShowsRemove(pubs, c.out, s.out, k);
      RefsHeld(pubs', cs[i := c'], ps, i);
      ShowsKept(pubs, pubs', c'.out, Complete(s, k).out);
      ShowsKept(pubs, pubs', c.inb, s.inb);
      assert Shows(pubs, c.out[k], s.out[k]) && c.out[k].id == s.out[k].id by { ShowsIds(pubs, c.out, s.out); }
    }
    AloneLess(c, c', Total(cs, ps), RefOf(c.out[k]), cs[i := c'], ps, i);
    ClientSteps(pubs, pubs', next, next, cs, ps, ms, i, c', Complete(s, k));
  }

  lemma Less(t: multiset<nat>, a: multiset<nat>, b: multiset<nat>, x: multiset<nat>)
    requires a + x + b <= t
    ensures t - (a + x + b) + (a + b) == t - x
  {
  }

  /** What a client refers to is stored. */
  lemma RefsHeld(pubs: Pubs, cs: seq<Conn>, ps: seq<PendingWrite>, i: int)
    requires Counted(pubs, Total(cs, ps)) && 0 <= i < |cs|
    ensures forall r :: r in RefsOf(cs[i].out) || r in RefsOf(cs[i].inb) ==> r in pubs
  {
    hide RefsOf, AllRefs;
    AllRefsUpdate(cs, i, cs[i]);
    assert forall r :: r in RefsOf(cs[i].out) || r in RefsOf(cs[i].inb) ==> r in ConnRefs(cs[i]);
  }

  /** With fewer references, an inbound record's publication is still not shared. */
  lemma AloneLess(c: Conn, c': Conn, t: multiset<nat>, x: multiset<nat>, cs: seq<Conn>, ps: seq<PendingWrite>, i: int)
    requires Alone(c, t) && 0 <= i < |cs| && cs[i] == c' && Total(cs, ps) == t - x && RefsOf(c'.inb) <= RefsOf(c.inb)
    ensures Alone(c', t - x)
  {
    hide RefsOf, AllRefs;
    AllRefsUpdate(cs, i, cs[i]);
    forall r | r in RefsOf(c'.inb)
      ensures (t - x)[r] == 1
    {
      assert r in ConnRefs(c') && r in Total(cs, ps) && r in RefsOf(c.inb);
    }
  }

  /** The client's records refer to the same publications as before. */
  lemma SameRefs(pubs: Pubs, next: nat, cs: seq<Conn>, ps: seq<PendingWrite>, ms: seq<Client>, i: int, c: Conn,
      s: Client)
    requires Conserved(pubs, next, cs, ps, ms) && 0 <= i < |cs| && Represents(pubs, c, s)
    requires RefsOf(c.out) == RefsOf(cs[i].out) && RefsOf(c.inb) == RefsOf(cs[i].inb)
    ensures Conserved(pubs, next, cs[i := c], ps, ms[i := s])
  {
    hide RefsOf, AllRefs, PendingRefs, Counted, RefOf, Represents;
    TotalUpdate(cs, ps, i, c);
    assert Total(cs[i := c], ps) == Total(cs, ps);
    assert Alone(cs[i], Total(cs, ps));
    ClientSteps(pubs, pubs, next, next, cs, ps, ms, i, c, s);
  }

  /** No client holds the publication inbound. */
  predicate NotInbound(cs: seq<Conn>, p: nat) {
    forall j :: 0 <= j < |cs| ==> p !in RefsOf(cs[j].inb)
  }

  /** A publication that an outbound record refers to is not held inbound. */
  lemma OutboundNotInbound(pubs: Pubs, next: nat, cs: seq<Conn>, ps: seq<PendingWrite>, ms: seq<Client>, j: int, k: int)
    requires Conserved(pubs, next, cs, ps, ms) && 0 <= j < |cs| && 0 <= k < |cs[j].out| && cs[j].out[k].publish.Some?
    ensures NotInbound(cs, cs[j].out[k].publish.value)
  {
    hide RefsOf, AllRefs, PendingRefs, Counted, Represents;
    var p := cs[j].out[k].publish.value;
    RefsMember(cs[j].out, k);
    assert p in RefOf(cs[j].out[k]) && p in RefsOf(cs[j].out);
    forall n | 0 <= n < |cs|
      ensures p !in RefsOf(cs[n].inb)
    {
      if n == j {
        TotalUpdate(cs, ps, j, cs[j]);
        OnceOnly(RefsOf(cs[j].out), RefsOf(cs[j].inb), Total(cs, ps), p);
      } else {
        TwoClients(cs, j, n);
        OnceOnly(ConnRefs(cs[j]), ConnRefs(cs[n]), AllRefs(cs), p);
        OnceOnly(RefsOf(cs[j].out), RefsOf(cs[n].inb), Total(cs, ps), p);
      }
      assert Alone(cs[n], Total(cs, ps));
    }
  }

  lemma OnceOnly(a: multiset<nat>, b: multiset<nat>, t: multiset<nat>, p: nat)
    ensures a + b <= t && p in a && p in b ==> t[p] >= 2
  {
    if a + b <= t && p in a && p in b {
      assert (a + b)[p] >= 2;
    }
  }

  lemma FreshNotInbound(pubs: Pubs, next: nat, cs: seq<Conn>, ps: seq<PendingWrite>, ms: seq<Client>)
    requires Conserved(pubs, next, cs, ps, ms)
    ensures next !in pubs && next !in Total(cs, ps) && NotInbound(cs, next)
  {
    hide RefsOf, AllRefs, Represents;
    forall j | 0 <= j < |cs|
      ensures next !in RefsOf(cs[j].inb)
    {
      RefsHeld(pubs, cs, ps, j);
    }
  }

  /** An outbound record comes, with a reference to a publication that is not inbound. */
  lemma OutCame(pubs: Pubs, pubs': Pubs, next: nat, next': nat, cs: seq<Conn>, ps: seq<PendingWrite>, ms: seq<Client>,
                i: int, k: int, r: Rec, c: Conn, s: Client)
    requires Conserved(pubs, next, cs, ps, ms) && 0 <= i < |cs| && next <= next'
    requires 0 <= k <= |cs[i].out| && r.publish.Some?
    requires c == cs[i].(out := cs[i].out[..k] + [r] + cs[i].out[k..], last := c.last, store := c.store)
    requires NotInbound(cs, r.publish.value) && Counted(pubs', Total(cs, ps) + RefOf(r)) && SameContents(pubs, pubs')
    requires forall q :: q in pubs' ==> q < next'
    requires |ms[i].out| == |cs[i].out| && s.v5 == ms[i].v5 && s.last == c.last && s.store == c.store
    requires s.inb == ms[i].inb
    requires exists m :: Shows(pubs', r, m) && s.out == ms[i].out[..k] + [m] + ms[i].out[k..]
    ensures Conserved(pubs', next', cs[i := c], ps, ms[i := s])
  {
    hide RefsOf, AllRefs, PendingRefs, Counted, Shows;
    RefsInsert(cs[i].out, k, r);
    TotalUpdate(cs, ps, i, c);
    More(Total(cs, ps), RefsOf(cs[i].out), RefsOf(cs[i].inb), RefOf(r));
    assert Total(cs[i := c], ps) == Total(cs, ps) + RefOf(r);
    assert Represents(pubs', c, s) by {
      var m :| Shows(pubs', r, m) && s.out == ms[i].out[..k] + [m] + ms[i].out[k..];
      assert Represents(pubs, cs[i], ms[i]);
      RefsHeld(pubs', cs[i := c], ps, i);
      ShowsKept(pubs, pubs', cs[i].out, ms[i].out);
      ShowsKept(pubs, pubs', cs[i].inb, ms[i].inb);
      ShowsInsert(pubs', cs[i].out, ms[i].out, k, r, m);
    }
    assert Alone(cs[i], Total(cs, ps));
    ClientSteps(pubs, pubs', next, next', cs, ps, ms, i, c, s);
  }

  lemma More(t: multiset<nat>, a: multiset<nat>, b: multiset<nat>, x: multiset<nat>)
    requires a + b <= t
    ensures t - (a + b) + (a + x + b) == t + x
  {
  }

  /** An inbound record comes, in the place of one with the same id or at the end. */
  function InbPut(c: Conn, k: int, r: Rec): Conn
    requires -1 <= k < |c.inb|
  {
    c.(inb := if k < 0 then c.inb + [r] else c.inb[k := r])
  }

  function InbLost(c: Conn, k: int): multiset<nat>
    requires -1 <= k < |c.inb|
  {
    if k < 0 then multiset{} else RefOf(c.inb[k])
  }

  lemma InbPutRefs(c: Conn, k: int, r: Rec)
    requires -1 <= k < |c.inb|
    ensures RefsOf(InbPut(c, k, r).inb) == RefsOf(c.inb) - InbLost(c, k) + RefOf(r) && InbLost(c, k) <= RefsOf(c.inb)
  {
    hide RefsOf, RefOf;
    if k < 0 {
      RefsAdd(c.inb, r);
    } else {
      RefsUpdate(c.inb, k, r);
      RefsMember(c.inb, k);
    }
  }

  lemma InbCame(pubs: Pubs, pubs': Pubs, next: nat, next': nat, cs: seq<Conn>, ps: seq<PendingWrite>, ms: seq<Client>,
                i: int, k: int, r: Rec, m: Message)
    requires Conserved(pubs, next, cs, ps, ms) && 0 <= i < |cs| && next < next'
    requires -1 <= k < |cs[i].inb| && r.publish == Some(next)
    requires Counted(pubs', Total(cs, ps) + RefOf(r) - InbLost(cs[i], k)) && SameContents(pubs, pubs')
    requires Shows(pubs', r, m)
    requires forall q :: q in pubs' ==> q < next'
    ensures |ms[i].inb| == |cs[i].inb|
    ensures Conserved(pubs', next', cs[i := InbPut(cs[i], k, r)], ps,
                      ms[i := ms[i].(inb := if k < 0 then ms[i].inb + [m] else ms[i].inb[k := m])])
  {
    hide RefsOf, AllRefs, PendingRefs, Counted, Shows;
    var c := InbPut(cs[i], k, r);
    var s := ms[i].(inb := if k < 0 then ms[i].inb + [m] else ms[i].inb[k := m]);
    FreshNotInbound(pubs, next, cs, ps, ms);
    InbPutRefs(cs[i], k, r);
    TotalUpdate(cs, ps, i, c);
    Swapped(Total(cs, ps), RefsOf(cs[i].out), RefsOf(cs[i].inb), InbLost(cs[i], k), RefOf(r));
    assert Total(cs[i := c], ps) == Total(cs, ps) + RefOf(r) - InbLost(cs[i], k);
    InbCameShown(pubs, pubs', cs, ps, ms[i], i, k, r, m);
    InbCameAlone(cs[i], k, r, Total(cs, ps), next);
    ClientSteps(pubs, pubs', next, next', cs, ps, ms, i, c, s);
  }

  lemma InbCameShown(pubs: Pubs, pubs': Pubs, cs: seq<Conn>, ps: seq<PendingWrite>, s: Client, i: int, k: int, r: Rec,
      m: Message)
    requires 0 <= i < |cs| && -1 <= k < |cs[i].inb| && Represents(pubs, cs[i], s) && SameContents(pubs, pubs')
    requires Counted(pubs', Total(cs[i := InbPut(cs[i], k, r)], ps)) && Shows(pubs', r, m) && r.publish.Some?
    ensures Represents(pubs', InbPut(cs[i], k, r), s.(inb := if k < 0 then s.inb + [m] else s.inb[k := m]))
  {
    hide RefsOf, AllRefs, PendingRefs, Counted;
    var c := InbPut(cs[i], k, r);
    RefsHeld(pubs', cs[i := c], ps, i);
    ShowsKept(pubs, pubs', cs[i].out, s.out);
    var inb := if k < 0 then s.inb + [m] else s.inb[k := m];
    forall j | 0 <= j < |c.inb|
      ensures Shows(pubs', c.inb[j], inb[j])
    {
      if c.inb[j] != r {
        assert j < |cs[i].inb| && c.inb[j] == cs[i].inb[j];
        if j != k {
          assert Shows(pubs, cs[i].inb[j], s.inb[j]);
          RefsMember(c.inb, j);
          assert c.inb[j].publish.Some? ==> c.inb[j].publish.value in RefOf(c.inb[j]);
        }
      } else if j < |cs[i].inb| && j != k {
        assert Shows(pubs, cs[i].inb[j], s.inb[j]);
        RefsMember(c.inb, j);
        assert c.inb[j].publish.value in RefOf(c.inb[j]);
      }
    }
  }

  lemma InbCameAlone(c: Conn, k: int, r: Rec, t: multiset<nat>, next: nat)
    requires -1 <= k < |c.inb| && r.publish == Some(next) && next !in t && Alone(c, t) && RefsOf(c.inb) <= t
    ensures Alone(InbPut(c, k, r), t + RefOf(r) - InbLost(c, k))
  {
    hide RefsOf;
    InbPutRefs(c, k, r);
    var x := InbLost(c, k);
    forall q | q in RefsOf(InbPut(c, k, r).inb)
      ensures (t + RefOf(r) - x)[q] == 1
    {
      if q == next {
        assert x[q] == 0 && t[q] == 0 && RefOf(r)[q] == 1;
      } else {
        assert RefOf(r)[q] == 0 && RefsOf(c.inb)[q] > x[q];
        assert t[q] == 1;
      }
    }
  }

  lemma Swapped(t: multiset<nat>, a: multiset<nat>, b: multiset<nat>, x: multiset<nat>, y: multiset<nat>)
    requires a + b <= t && x <= b
    ensures t - (a + b) + (a + (b - x + y)) == t + y - x
  {
  }

  /** An inbound record goes, and with it its publication. */
  lemma InbGone(pubs: Pubs, pubs': Pubs, next: nat, cs: seq<Conn>, ps: seq<PendingWrite>, ms: seq<Client>,
      i: int, k: int,
                c: Conn, s: Client)
    requires Conserved(pubs, next, cs, ps, ms) && 0 <= i < |cs| && 0 <= k < |cs[i].inb| && |ms[i].inb| == |cs[i].inb|
    requires c == cs[i].(inb := cs[i].inb[..k] + cs[i].inb[k + 1..], store := c.store)
    requires s == ms[i].(inb := RemoveAt(ms[i].inb, k), store := c.store)
    requires Counted(pubs', Total(cs, ps) - RefOf(cs[i].inb[k])) && SameContents(pubs, pubs') && pubs'.Keys <= pubs.Keys
    ensures Conserved(pubs', next, cs[i := c], ps, ms[i := s])
  {
    hide RefsOf, AllRefs, PendingRefs, Counted, RefOf, Shows;
    RefsSplit(cs[i].inb, k);
    TotalUpdate(cs, ps, i, c);
    LessRight(Total(cs, ps), RefsOf(c.out), RefsOf(c.inb), RefOf(cs[i].inb[k]));
    assert Total(cs[i := c], ps) == Total(cs, ps) - RefOf(cs[i].inb[k]);
    assert Represents(pubs', c, s) by {
      assert Represents(pubs, cs[i], ms[i]);
      ShowsRemove(pubs, cs[i].inb, ms[i].inb, k);
      RefsHeld(pubs', cs[i := c], ps, i);
      ShowsKept(pubs, pubs', c.out, s.out);
      ShowsKept(pubs, pubs', c.inb, s.inb);
    }
    AloneLess(cs[i], c, Total(cs, ps), RefOf(cs[i].inb[k]), cs[i := c], ps, i);
    ClientSteps(pubs, pubs', next, next, cs, ps, ms, i, c, s);
  }

  lemma LessRight(t: multiset<nat>, a: multiset<nat>, b: multiset<nat>, x: multiset<nat>)
    requires a + (b + x) <= t
    ensures t - (a + (b + x)) + (a + b) == t - x
  {
  }

  /** An inbound MQTT 5 record gives up its publication, which has been passed on. */
  lemma InbDropped(pubs: Pubs, pubs': Pubs, next: nat, cs: seq<Conn>, ps: seq<PendingWrite>, ms: seq<Client>,
      i: int, k: int, c: Conn)
    requires Conserved(pubs, next, cs, ps, ms) && 0 <= i < |cs| && cs[i].v5 && 0 <= k < |cs[i].inb|
    requires c == cs[i].(inb := cs[i].inb[k := cs[i].inb[k].(publish := None)])
    requires Counted(pubs', Total(cs, ps) - RefOf(cs[i].inb[k])) && SameContents(pubs, pubs') && pubs'.Keys <= pubs.Keys
    ensures Conserved(pubs', next, cs[i := c], ps, ms[i := ms[i]])
  {
    hide RefsOf, AllRefs, PendingRefs, Counted, RefOf, Shows, Represents;
    var x := RefOf(cs[i].inb[k]);
    DroppedRefs(cs, ps, i, k, c);
    DroppedShown(pubs, pubs', cs, ps, ms[i], i, k, c);
    AloneLess(cs[i], c, Total(cs, ps), x, cs[i := c], ps, i);
    ClientSteps(pubs, pubs', next, next, cs, ps, ms, i, c, ms[i]);
  }

  lemma DroppedRefs(cs: seq<Conn>, ps: seq<PendingWrite>, i: int, k: int, c: Conn)
    requires 0 <= i < |cs| && 0 <= k < |cs[i].inb|
    requires c == cs[i].(inb := cs[i].inb[k := cs[i].inb[k].(publish := None)])
    ensures RefsOf(c.inb) <= RefsOf(cs[i].inb) && Total(cs[i := c], ps) == Total(cs, ps) - RefOf(cs[i].inb[k])
  {
    hide RefsOf, AllRefs, PendingRefs;
    var x := RefOf(cs[i].inb[k]);
    RefsUpdate(cs[i].inb, k, c.inb[k]);
    RefsMember(cs[i].inb, k);
    assert RefOf(c.inb[k]) == multiset{};
    TotalUpdate(cs, ps, i, c);
    hide RefOf, Total;
    assert RefsOf(c.inb) == RefsOf(cs[i].inb) - x + multiset{};
    assert ConnRefs(c) == RefsOf(cs[i].out) + (RefsOf(cs[i].inb) - x + multiset{});
    assert ConnRefs(cs[i]) == RefsOf(cs[i].out) + RefsOf(cs[i].inb);
    Swapped(Total(cs, ps), RefsOf(cs[i].out), RefsOf(cs[i].inb), x, multiset{});
    assert Total(cs, ps) + multiset{} == Total(cs, ps);
  }

  lemma DroppedShown(pubs: Pubs, pubs': Pubs, cs: seq<Conn>, ps: seq<PendingWrite>, s: Client, i: int, k: int, c: Conn)
    requires 0 <= i < |cs| && 0 <= k < |cs[i].inb| && cs[i].v5 && Represents(pubs, cs[i], s)
    requires SameContents(pubs, pubs')
    requires c == cs[i].(inb := cs[i].inb[k := cs[i].inb[k].(publish := None)]) && Counted(pubs', Total(cs[i := c], ps))
    ensures Represents(pubs', c, s)
  {
    hide RefsOf, AllRefs, PendingRefs, Counted;
    RefsHeld(pubs', cs[i := c], ps, i);
    assert Shows(pubs, cs[i].inb[k], s.inb[k]);
    ShowsUpdate(pubs, cs[i].inb, s.inb, k, c.inb[k], s.inb[k]);
    assert s.inb[k := s.inb[k]] == s.inb;
    ShowsKept(pubs, pubs', c.out, s.out);
    ShowsKept(pubs, pubs', c.inb, s.inb);
  }

  /** All records of one of a client's lists go. */
  lemma Emptied(pubs: Pubs, pubs': Pubs, next: nat, cs: seq<Conn>, ps: seq<PendingWrite>, ms: seq<Client>, i: int,
                c: Conn, s: Client, gone: multiset<nat>)
    requires Conserved(pubs, next, cs, ps, ms) && 0 <= i < |cs|
    requires (c == cs[i].(inb := []) && s == ms[i].(inb := []) && gone == RefsOf(cs[i].inb))
          || (c == cs[i].(out := []) && s == ms[i].(out := []) && gone == RefsOf(cs[i].out))
    requires Counted(pubs', Total(cs, ps) - gone) && SameContents(pubs, pubs') && pubs'.Keys <= pubs.Keys
    ensures Conserved(pubs', next, cs[i := c], ps, ms[i := s])
  {
    NoRefs();
    hide RefsOf, AllRefs, PendingRefs, Counted, RefOf, Shows;
    TotalUpdate(cs, ps, i, c);
    assert ConnRefs(cs[i]) == ConnRefs(c) + gone;
    LessRight(Total(cs, ps), multiset{}, ConnRefs(c), gone);
    assert Total(cs[i := c], ps) == Total(cs, ps) - gone;
    EmptiedShown(pubs, pubs', cs, ps, ms[i], i, c, s);
    AloneLess(cs[i], c, Total(cs, ps), gone, cs[i := c], ps, i);
    hide Represents, Total;
    ClientSteps(pubs, pubs', next, next, cs, ps, ms, i, c, s);
  }

  lemma EmptiedShown(pubs: Pubs, pubs': Pubs, cs: seq<Conn>, ps: seq<PendingWrite>, was: Client, i: int, c: Conn,
      s: Client)
    requires 0 <= i < |cs| && Represents(pubs, cs[i], was) && SameContents(pubs, pubs')
    requires Counted(pubs', Total(cs[i := c], ps))
    requires (c == cs[i].(inb := []) && s == was.(inb := [])) || (c == cs[i].(out := []) && s == was.(out := []))
    ensures Represents(pubs', c, s)
  {
    hide RefsOf, AllRefs, PendingRefs, Counted, Shows;
    RefsHeld(pubs', cs[i := c], ps, i);
    ShowsKept(pubs, pubs', c.out, s.out);
    ShowsKept(pubs, pubs', c.inb, s.inb);
  }

  lemma NoRefs()
    ensures RefsOf([]) == multiset{}
  {
  }

  /** The pending writes change, and the references and counts with them. */
  lemma PendingSteps(pubs: Pubs, pubs': Pubs, next: nat, next': nat, cs: seq<Conn>, ps: seq<PendingWrite>,
      ps': seq<PendingWrite>,
                     ms: seq<Client>)
    requires Conserved(pubs, next, cs, ps, ms) && next <= next' && Counted(pubs', Total(cs, ps'))
    requires SameContents(pubs, pubs')
    requires (forall r :: r in pubs' ==> r < next')
    requires forall r, j :: 0 <= j < |cs| && r in RefsOf(cs[j].inb) ==> Total(cs, ps')[r] <= Total(cs, ps)[r]
    ensures Conserved(pubs', next', cs, ps', ms)
  {
    hide RefsOf, AllRefs, PendingRefs, Counted, Represents;
    forall j | 0 <= j < |cs|
      ensures Represents(pubs', cs[j], ms[j]) && Alone(cs[j], Total(cs, ps'))
    {
      OtherClient(pubs, pubs', cs, ps', j, ms[j]);
      AllRefsUpdate(cs, j, cs[j]);
      assert Alone(cs[j], Total(cs, ps));
      forall r | r in RefsOf(cs[j].inb)
        ensures Total(cs, ps')[r] == 1
      {
        assert r in ConnRefs(cs[j]) && r in AllRefs(cs);
      }
    }
  }

  /** A record and its publication, as a message. */
  function MessageOf(pubs: Pubs, r: Rec): (m: Message)
    requires r.publish.Some? && r.publish.value in pubs
    ensures Shows(pubs, r, m)
  {
    var p := pubs[r.publish.value];
    Message(r.id, r.qos, r.retain, p.topic, p.payload, r.properties, r.awaiting, r.uid)
  }

  lemma MessageShown(pubs: Pubs, r: Rec, m: Message)
    requires Shows(pubs, r, m) && r.publish.Some?
    ensures MessageOf(pubs, r) == m
  {
  }
}
