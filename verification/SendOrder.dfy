/** The order of restored messages: sorted insertion, then MQTTPersistence_wrapMsgID (section 4.6 of MQTT 3.1.1). */
module SendOrder {
  import opened Bytes
  import opened Session

  predicate ValidIds(ms: seq<Message>) {
    forall m :: m in ms ==> 1 <= m.id <= MAX_MSG_ID
  }

  predicate Sorted(ms: seq<Message>) {
    forall i, j :: 0 <= i < j < |ms| ==> ms[i].id < ms[j].id
  }

  ghost predicate SameMembers(a: seq<Message>, b: seq<Message>) {
    forall m :: m in a <==> m in b
  }

  lemma SortedCons(m: Message, tail: seq<Message>)
    requires Sorted(tail) && forall x :: x in tail ==> m.id < x.id
    ensures Sorted([m] + tail)
  {
    assert forall j :: 0 <= j < |tail| ==> tail[j] in tail;
  }

  lemma {:induction false} InsertMembers(ms: seq<Message>, m: Message)
    ensures forall x :: x in InsertInOrder(ms, m) <==> x == m || x in ms
  {
    if |ms| > 0 && ms[0].id <= m.id {
      InsertMembers(ms[1..], m);
      assert ms == [ms[0]] + ms[1..];
    }
  }

  lemma {:induction false} InsertSorted(ms: seq<Message>, m: Message)
    requires Sorted(ms) && Lookup(ms, m.id).None?
    ensures Sorted(InsertInOrder(ms, m))
  {
    if |ms| > 0 && ms[0].id <= m.id {
      assert ms[0] in ms;
      assert forall x :: x in ms[1..] ==> x in ms;
      InsertSorted(ms[1..], m);
      InsertMembers(ms[1..], m);
      SortedCons(ms[0], InsertInOrder(ms[1..], m));
    } else if |ms| > 0 {
      SortedCons(m, ms);
    }
  }

  /** A set of messages has one sorted listing. */
  lemma {:induction false} SortedUnique(a: seq<Message>, b: seq<Message>)
    requires Sorted(a) && Sorted(b) && SameMembers(a, b)
    ensures a == b
  {
    assert |b| > 0 ==> b[0] in b;
    if |a| > 0 {
      assert a[0] in b;
      var i :| 0 <= i < |b| && b[i] == a[0];
      assert b[0] in a;
      var j :| 0 <= j < |a| && a[j] == b[0];
      assert i == 0;
      forall x ensures x in a[1..] <==> x in b[1..] {
        assert x in a[1..] <==> x in a && x != a[0] by { assert a == [a[0]] + a[1..]; }
        assert x in b[1..] <==> x in b && x != b[0] by { assert b == [b[0]] + b[1..]; }
      }
      SortedUnique(a[1..], b[1..]);
      assert a == [a[0]] + a[1..] && b == [b[0]] + b[1..];
    }
  }

  // ----- the largest gap -----

  /** The cyclic gap in front of the k-th message of a sorted list. */
  function Gap(ms: seq<Message>, k: nat): int
    requires k < |ms|
  {
    if k == 0 then WrapGap(ms) else ms[k].id - ms[k - 1].id
  }

  /** k is the first place whose gap is as large as any. */
  predicate FirstLargestGap(ms: seq<Message>, k: nat)
    requires k < |ms|
  {
    && (forall j :: 0 <= j < k ==> Gap(ms, j) < Gap(ms, k))
    && (forall j :: k <= j < |ms| ==> Gap(ms, j) <= Gap(ms, k))
  }

  lemma {:induction false} WrapPointScan(ms: seq<Message>, i: nat, best: nat)
    requires 1 <= i <= |ms| && best < i
    requires forall j :: 0 <= j < best ==> Gap(ms, j) < Gap(ms, best)
    requires forall j :: best <= j < i ==> Gap(ms, j) <= Gap(ms, best)
    ensures FirstLargestGap(ms, WrapPoint(ms, i, Gap(ms, best), best))
    decreases |ms| - i
  {
    if i < |ms| {
      WrapPointScan(ms, i + 1, if Gap(ms, i) > Gap(ms, best) then i else best);
    }
  }

  /** The wrapped list is the rotation that starts after the first largest gap. */
  lemma WrapIsRotation(ms: seq<Message>)
    requires |ms| > 0
    ensures exists k :: 0 <= k < |ms| && FirstLargestGap(ms, k) && WrapMsgId(ms) == ms[k..] + ms[..k]
  {
    WrapPointScan(ms, 1, 0);
    var k := WrapPoint(ms, 1, WrapGap(ms), 0);
    assert FirstLargestGap(ms, k) && WrapMsgId(ms) == ms[k..] + ms[..k];
  }

  lemma WrapMembers(ms: seq<Message>)
    ensures SameMembers(WrapMsgId(ms), ms)
    ensures DistinctIds(ms) ==> DistinctIds(WrapMsgId(ms))
  {
    if |ms| > 0 {
      var k := WrapPoint(ms, 1, WrapGap(ms), 0);
      RotationMembers(ms, k);
      RotationDistinct(ms, k);
    }
  }

  lemma RotationDistinct(ms: seq<Message>, n: nat)
    requires n <= |ms|
    ensures DistinctIds(ms) ==> DistinctIds(ms[n..] + ms[..n])
  {
    var w := ms[n..] + ms[..n];
    assert forall i :: 0 <= i < |w| ==> w[i] == if i < |ms| - n then ms[n + i] else ms[i - (|ms| - n)];
  }

  lemma FirstLargestUnique(ms: seq<Message>, a: nat, b: nat)
    requires a < |ms| && b < |ms| && FirstLargestGap(ms, a) && FirstLargestGap(ms, b)
    ensures a == b
  {
    var ga, gb := Gap(ms, a), Gap(ms, b);
  }

  /** Of all rotations of a sorted list, wrapping gives back the one that was sent exactly when
      its start follows the first largest gap. */
  lemma WrapRestores(ms: seq<Message>, k: nat)
    requires Sorted(ms) && k < |ms|
    ensures WrapMsgId(ms) == ms[k..] + ms[..k] <==> FirstLargestGap(ms, k)
  {
    WrapPointScan(ms, 1, 0);
    var w := WrapPoint(ms, 1, WrapGap(ms), 0);
    assert (ms[k..] + ms[..k])[0] == ms[k] && (ms[w..] + ms[..w])[0] == ms[w];
    if FirstLargestGap(ms, k) {
      FirstLargestUnique(ms, k, w);
    }
  }

  // ----- ids issued in cyclic order -----

  /** How far id b comes after id a on the ring of ids. */
  function Offset(a: int, b: int): int {
    if a <= b then b - a else b - a + MAX_MSG_ID
  }

  /** The ids go once forward round the ring from the first. */
  predicate CyclicOrder(ms: seq<Message>) {
    forall i, j :: 0 <= i < j < |ms| ==> Offset(ms[0].id, ms[i].id) < Offset(ms[0].id, ms[j].id)
  }

  predicate SpansLessThanHalf(ms: seq<Message>) {
    |ms| > 0 ==> 2 * Offset(ms[0].id, ms[|ms| - 1].id) < MAX_MSG_ID
  }

  /** How many messages come before the ids wrap round. */
  function Unwrapped(ms: seq<Message>, n: nat): (r: nat)
    requires n <= |ms|
    ensures n <= r <= |ms|
    ensures forall i :: n <= i < r ==> ms[0].id <= ms[i].id
    ensures r < |ms| ==> ms[r].id < ms[0].id
    decreases |ms| - n
  {
    if n < |ms| && ms[0].id <= ms[n].id then Unwrapped(ms, n + 1) else n
  }

  /** Once the ids have wrapped they stay below the first. */
  lemma WrappedBelow(sent: seq<Message>, i: nat)
    requires |sent| > 0 && ValidIds(sent) && CyclicOrder(sent)
    requires Unwrapped(sent, 0) <= i < |sent|
    ensures sent[i].id < sent[0].id
  {
    var n := Unwrapped(sent, 0);
    assert sent[i] in sent && sent[n] in sent;
    if n < i {
      assert Offset(sent[0].id, sent[n].id) < Offset(sent[0].id, sent[i].id);
    }
  }

  /** The place in the send order of the i-th message of the sorted rotation. */
  function Source(len: nat, n: nat, i: nat): nat
    requires n <= len && i < len
  {
    if i < len - n then n + i else i - (len - n)
  }

  /** The place in the sorted rotation of the first message sent. */
  function Place(len: nat, n: nat): nat
    requires n <= len
  {
    if n == len then 0 else len - n
  }

  lemma RotationAt(sent: seq<Message>, n: nat, i: nat)
    requires n <= |sent| && i < |sent|
    ensures (sent[n..] + sent[..n])[i] == sent[Source(|sent|, n, i)]
  {
  }

  /** Ids issued in cyclic order are a rotation of their sorted list. */
  lemma CyclicIsRotation(sent: seq<Message>)
    requires |sent| > 0 && ValidIds(sent) && CyclicOrder(sent)
    ensures var n := Unwrapped(sent, 0); 1 <= n && Sorted(sent[n..] + sent[..n])
  {
    var n := Unwrapped(sent, 0);
    var s := sent[n..] + sent[..n];
    forall i, j | 0 <= i < j < |s|
      ensures s[i].id < s[j].id
    {
      RotationAt(sent, n, i);
      RotationAt(sent, n, j);
      var i', j' := Source(|sent|, n, i), Source(|sent|, n, j);
      if i' < j' {
        assert Offset(sent[0].id, sent[i'].id) < Offset(sent[0].id, sent[j'].id);
        if n <= i' {
          WrappedBelow(sent, i');
          WrappedBelow(sent, j');
        }
      } else {
        WrappedBelow(sent, i');
      }
    }
  }

  lemma OffsetAtMostLast(sent: seq<Message>, i: nat)
    requires |sent| > 0 && CyclicOrder(sent) && i < |sent|
    ensures Offset(sent[0].id, sent[i].id) <= Offset(sent[0].id, sent[|sent| - 1].id)
  {
  }

  /** A gap inside the span is no larger than the span. */
  lemma InnerGap(sent: seq<Message>, n: nat, j: nat)
    requires |sent| > 0 && ValidIds(sent) && CyclicOrder(sent) && n == Unwrapped(sent, 0) && 1 <= n
    requires j < |sent| && j != Place(|sent|, n)
    ensures Gap(sent[n..] + sent[..n], j) <= Offset(sent[0].id, sent[|sent| - 1].id)
  {
    var p := if j == 0 then |sent| - 1 else j - 1;
    RotationAt(sent, n, j);
    RotationAt(sent, n, p);
    var y, x := Source(|sent|, n, j), Source(|sent|, n, p);
    assert sent[x] in sent && sent[y] in sent;
    OffsetAtMostLast(sent, y);
    if n <= x { WrappedBelow(sent, x); }
    if n <= y { WrappedBelow(sent, y); }
  }

  /** The gap in front of the first message sent. */
  lemma OuterGap(sent: seq<Message>)
    requires |sent| > 0 && ValidIds(sent) && CyclicOrder(sent)
    ensures var n := Unwrapped(sent, 0);
      1 <= n && Gap(sent[n..] + sent[..n], Place(|sent|, n)) ==
        MAX_MSG_ID - Offset(sent[0].id, sent[|sent| - 1].id)
  {
    var n := Unwrapped(sent, 0);
    var k := Place(|sent|, n);
    var last := |sent| - 1;
    assert sent[0] in sent && sent[last] in sent;
    if n <= last { WrappedBelow(sent, last); }
    RotationAt(sent, n, k);
    RotationAt(sent, n, if k == 0 then last else k - 1);
    hide Unwrapped, CyclicOrder, ValidIds;
  }

  lemma RotationGaps(sent: seq<Message>)
    requires |sent| > 0 && ValidIds(sent) && CyclicOrder(sent) && SpansLessThanHalf(sent)
    ensures var n := Unwrapped(sent, 0);
      1 <= n && FirstLargestGap(sent[n..] + sent[..n], Place(|sent|, n))
  {
    hide CyclicOrder, ValidIds, Offset, Gap, Unwrapped;
    OuterGap(sent);
    var n := Unwrapped(sent, 0);
    UnwrappedBounds(sent);
    var s := sent[n..] + sent[..n];
    var k := Place(|sent|, n);
    forall j | 0 <= j < |s| && j != k
      ensures Gap(s, j) < Gap(s, k)
    {
      InnerGap(sent, n, j);
    }
  }

  lemma UnwrappedBounds(ms: seq<Message>)
    ensures 0 <= Unwrapped(ms, 0) <= |ms|
  {
  }

  /** The gap in front of the first message sent is the first largest of all gaps. */
  predicate FollowsLargestGap(sent: seq<Message>) {
    |sent| > 0 ==> var n := Unwrapped(sent, 0); FirstLargestGap(sent[n..] + sent[..n], Place(|sent|, n))
  }

  /** Only the ids matter. */
  lemma SameIdsSameGaps(a: seq<Message>, b: seq<Message>)
    requires |a| == |b| && forall i :: 0 <= i < |a| ==> a[i].id == b[i].id
    ensures FollowsLargestGap(a) <==> FollowsLargestGap(b)
  {
    if |a| > 0 {
      SameUnwrapped(a, b, 0);
      UnwrappedBounds(a);
      hide Unwrapped, FirstLargestGap;
      var n := Unwrapped(a, 0);
      var s, t := a[n..] + a[..n], b[n..] + b[..n];
      forall k | 0 <= k < |s|
        ensures s[k].id == t[k].id
      {
        RotationAt(a, n, k);
        RotationAt(b, n, k);
      }
      SameLargestGap(s, t, Place(|a|, n));
    }
  }

  lemma SameIdsSameCycle(a: seq<Message>, b: seq<Message>)
    requires |a| == |b| && forall i :: 0 <= i < |a| ==> a[i].id == b[i].id
    ensures CyclicOrder(a) <==> CyclicOrder(b)
  {
    hide Offset;
  }

  lemma SameLargestGap(s: seq<Message>, t: seq<Message>, k: nat)
    requires k < |s| == |t| && forall i :: 0 <= i < |s| ==> s[i].id == t[i].id
    ensures FirstLargestGap(s, k) <==> FirstLargestGap(t, k)
  {
    assert forall j :: 0 <= j < |s| ==> Gap(s, j) == Gap(t, j);
  }

  lemma {:induction false} SameUnwrapped(a: seq<Message>, b: seq<Message>, n: nat)
    requires n <= |a| == |b| && forall i :: 0 <= i < |a| ==> a[i].id == b[i].id
    ensures Unwrapped(a, n) == Unwrapped(b, n)
    decreases |a| - n
  {
    if n < |a| { SameUnwrapped(a, b, n + 1); }
  }

  lemma HalfFollowsLargestGap(sent: seq<Message>)
    requires ValidIds(sent) && CyclicOrder(sent) && SpansLessThanHalf(sent)
    ensures FollowsLargestGap(sent)
  {
    if |sent| > 0 { RotationGaps(sent); }
  }

  /** Every rotation of a sorted list is in cyclic order, and wraps where the sorted list starts. */
  lemma RotationIsCyclic(s: seq<Message>, k: nat)
    requires Sorted(s) && ValidIds(s) && k < |s|
    ensures var w := s[k..] + s[..k]; CyclicOrder(w) && Unwrapped(w, 0) == |s| - k
  {
    var w := s[k..] + s[..k];
    forall i | 0 <= i < |w|
      ensures w[i] == s[Source(|s|, k, i)] && 1 <= w[i].id <= MAX_MSG_ID
    {
      RotationAt(s, k, i);
      assert w[i] in s;
    }
    hide Unwrapped;
    forall i, j | 0 <= i < j < |w|
      ensures Offset(w[0].id, w[i].id) < Offset(w[0].id, w[j].id)
    {
    }
    UnwrappedStops(w, 0, |s| - k);
  }

  lemma {:induction false} UnwrappedStops(ms: seq<Message>, i: nat, n: nat)
    requires i <= n <= |ms| && (forall j :: i <= j < n ==> ms[0].id <= ms[j].id)
    requires n < |ms| ==> ms[n].id < ms[0].id
    ensures Unwrapped(ms, i) == n
    decreases n - i
  {
    if i < n { UnwrappedStops(ms, i + 1, n); }
  }

  /** Sorting and wrapping restore the send order if and only if the ids were issued in cyclic order and the first
      message follows the first largest gap. */
  lemma RestoresExactly(sent: seq<Message>, sorted: seq<Message>)
    requires ValidIds(sent) && Sorted(sorted) && SameMembers(sorted, sent)
    ensures WrapMsgId(sorted) == sent <==> CyclicOrder(sent) && FollowsLargestGap(sent)
  {
    assert |sorted| > 0 ==> sorted[0] in sorted;
    assert |sent| > 0 ==> sent[0] in sent;
    if |sent| > 0 {
      hide Unwrapped, FollowsLargestGap, CyclicOrder, WrapMsgId, Sorted, ValidIds, SameMembers;
      FollowsIfWrapped(sorted, sent);
      if CyclicOrder(sent) && FollowsLargestGap(sent) {
        RestoresIfFollows(sent, sorted);
      }
    }
  }

  lemma FollowsIfWrapped(sorted: seq<Message>, sent: seq<Message>)
    requires |sorted| > 0 && Sorted(sorted) && ValidIds(sent) && SameMembers(sorted, sent)
    ensures WrapMsgId(sorted) == sent ==> CyclicOrder(sent) && FollowsLargestGap(sent)
  {
    hide FirstLargestGap, Unwrapped, CyclicOrder, WrapMsgId, Sorted;
    if WrapMsgId(sorted) == sent {
      WrapIsRotation(sorted);
      var k :| 0 <= k < |sorted| && FirstLargestGap(sorted, k) && WrapMsgId(sorted) == sorted[k..] + sorted[..k];
      RotationIsCyclic(sorted, k);
      UnrotatedBack(sorted, k);
    }
  }

  lemma RestoresIfFollows(sent: seq<Message>, sorted: seq<Message>)
    requires |sent| > 0 && ValidIds(sent) && CyclicOrder(sent) && FollowsLargestGap(sent)
    requires Sorted(sorted) && SameMembers(sorted, sent)
    ensures WrapMsgId(sorted) == sent
  {
    CyclicIsRotation(sent);
    hide FirstLargestGap, CyclicOrder, ValidIds, Unwrapped, WrapMsgId, Sorted;
    var n := Unwrapped(sent, 0);
    RotationMembers(sent, n);
    SortedUnique(sorted, sent[n..] + sent[..n]);
    WrapRestores(sorted, Place(|sent|, n));
    RotationBack(sent, n);
  }

  lemma UnrotatedBack(s: seq<Message>, k: nat)
    requires k < |s|
    ensures var w, n := s[k..] + s[..k], |s| - k; w[n..] + w[..n] == s && Place(|s|, n) == k
  {
  }

  /** So they do whenever the ids span less than half the ring. */
  lemma RestoresSendOrder(sent: seq<Message>, sorted: seq<Message>)
    requires ValidIds(sent) && CyclicOrder(sent) && SpansLessThanHalf(sent)
    requires Sorted(sorted) && SameMembers(sorted, sent)
    ensures WrapMsgId(sorted) == sent
  {
    HalfFollowsLargestGap(sent);
    RestoresExactly(sent, sorted);
  }

  lemma RotationMembers(ms: seq<Message>, n: nat)
    requires n <= |ms|
    ensures SameMembers(ms[n..] + ms[..n], ms)
  {
    assert ms == ms[..n] + ms[n..];
  }

  lemma RotationBack(ms: seq<Message>, n: nat)
    requires n <= |ms|
    ensures var s := ms[n..] + ms[..n]; var k := Place(|ms|, n); s[k..] + s[..k] == ms
  {
  }
}
