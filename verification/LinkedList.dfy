/** The doubly linked list of LinkedList.c, whose current element is a cache of the last search. */
module LinkedList {
  import opened Bytes

  class Element<T> {
    var prev: Element?<T>
    var next: Element?<T>
    var content: T

    constructor (content: T)
      ensures this.content == content && prev == null && next == null
    {
      this.content, prev, next := content, null, null;
    }

    ghost function Fields(): Rec<T>
      reads this
    {
      Rec(prev, next, content)
    }
  }

  /** The fields of an element, as a value. */
  datatype Rec<T> = Rec(prev: Element?<T>, next: Element?<T>, content: T)

  type Memory<T> = map<Element<T>, Rec<T>>

  type Elements<T> = seq<Element<T>>

  /** The element at a position, or null outside the list. */
  function At<T>(es: Elements<T>, i: int): Element?<T> {
    if 0 <= i < |es| then es[i] else null
  }

  predicate DistinctElements<T>(es: Elements<T>) {
    forall i, j :: 0 <= i < j < |es| ==> es[i] != es[j]
  }

  predicate Held<T>(m: Memory<T>, es: Elements<T>) {
    forall i :: 0 <= i < |es| ==> es[i] in m
  }

  predicate LinkedAt<T>(m: Memory<T>, es: Elements<T>, i: int)
    requires 0 <= i < |es| && es[i] in m
  {
    m[es[i]].next == At(es, i + 1) && m[es[i]].prev == At(es, i - 1)
  }

  /** next and prev follow the sequence forwards and backwards. */
  predicate Linked<T>(m: Memory<T>, es: Elements<T>) {
    DistinctElements(es) && Held(m, es) && forall i :: 0 <= i < |es| ==> LinkedAt(m, es, i)
  }

  /** The contents in order. */
  function Contents<T>(m: Memory<T>, es: Elements<T>): (r: seq<T>)
    requires Held(m, es)
    ensures |r| == |es| && forall i :: 0 <= i < |es| ==> r[i] == m[es[i]].content
  {
    seq(|es|, i requires 0 <= i < |es| => m[es[i]].content)
  }

  /** Plain linear search: the position of the first match, or -1. */
  function FirstMatch<T>(s: seq<T>, matches: T -> bool): (r: int)
    ensures -1 <= r < |s|
    ensures r >= 0 ==> matches(s[r]) && forall j :: 0 <= j < r ==> !matches(s[j])
    ensures r < 0 ==> forall j :: 0 <= j < |s| ==> !matches(s[j])
  {
    if |s| == 0 then -1
    else if matches(s[0]) then 0
    else
      var r := FirstMatch(s[1..], matches);
      assert forall j :: 1 <= j < |s| ==> s[j] == s[1..][j - 1];
      if r < 0 then -1 else r + 1
  }

  predicate AtMostOne<T>(s: seq<T>, matches: T -> bool) {
    forall i, j :: 0 <= i < j < |s| ==> !(matches(s[i]) && matches(s[j]))
  }

  lemma FirstMatchIs<T>(s: seq<T>, matches: T -> bool, i: int)
    requires 0 <= i <= |s| && (forall j :: 0 <= j < i ==> !matches(s[j])) && (i < |s| ==> matches(s[i]))
    ensures FirstMatch(s, matches) == if i < |s| then i else -1
  {
    var r := FirstMatch(s, matches);
    assert r >= 0 ==> matches(s[r]);
  }

  lemma OnlyMatch<T>(s: seq<T>, matches: T -> bool, i: int)
    requires AtMostOne(s, matches) && 0 <= i < |s| && matches(s[i])
    ensures FirstMatch(s, matches) == i
  {
    var r := FirstMatch(s, matches);
    assert matches(s[r]);
  }

  // ----- the changes to memory -----

  /** Elsewhere than in the given elements nothing has changed, and no content has. */
  ghost predicate Changed<T>(m: Memory<T>, m': Memory<T>, touched: set<Element?<T>>) {
    forall e :: e in m ==> e in m' && m'[e].content == m[e].content && (e !in touched ==> m'[e] == m[e])
  }

  lemma Appended<T>(m: Memory<T>, m': Memory<T>, es: Elements<T>, e: Element<T>)
    requires Linked(m, es) && e !in m && e in m' && Changed(m, m', {At(es, |es| - 1)})
    requires m'[e].next == null && m'[e].prev == At(es, |es| - 1)
    requires |es| > 0 ==> m'[es[|es| - 1]] == m[es[|es| - 1]].(next := e)
    ensures Linked(m', es + [e]) && Contents(m', es + [e]) == Contents(m, es) + [m'[e].content]
  {
    var es' := es + [e];
    forall i | 0 <= i < |es'|
      ensures LinkedAt(m', es', i)
    {
      if i < |es| { assert LinkedAt(m, es, i); }
    }
  }

  lemma Inserted<T>(m: Memory<T>, m': Memory<T>, es: Elements<T>, k: int, e: Element<T>)
    requires Linked(m, es) && 0 <= k < |es| && e !in m && e in m' && Changed(m, m', {At(es, k - 1), es[k]})
    requires m'[e].next == es[k] && m'[e].prev == At(es, k - 1)
    requires es[k] in m && m'[es[k]] == m[es[k]].(prev := e)
    requires k > 0 ==> es[k - 1] in m && m'[es[k - 1]] == m[es[k - 1]].(next := e)
    ensures Linked(m', es[..k] + [e] + es[k..])
    ensures Contents(m', es[..k] + [e] + es[k..]) == Contents(m, es)[..k] + [m'[e].content] + Contents(m, es)[k..]
  {
    hide DistinctElements, Contents, Changed, At, LinkedAt;
    InsertedElements(m, m', es, k, e, {At(es, k - 1), es[k]});
    forall i | 0 <= i <= |es|
      ensures LinkedAt(m', es[..k] + [e] + es[k..], i)
    {
      InsertedLink(m, m', es, k, e, i);
    }
  }

  lemma InsertedLink<T>(m: Memory<T>, m': Memory<T>, es: Elements<T>, k: int, e: Element<T>, i: int)
    requires Linked(m, es) && 0 <= k < |es| && e in m' && Changed(m, m', {At(es, k - 1), es[k]}) && 0 <= i <= |es|
    requires m'[e].next == es[k] && m'[e].prev == At(es, k - 1)
    requires m'[es[k]] == m[es[k]].(prev := e) && (k > 0 ==> m'[es[k - 1]] == m[es[k - 1]].(next := e))
    ensures var es' := es[..k] + [e] + es[k..]; es'[i] in m' && LinkedAt(m', es', i)
  {
    hide DistinctElements, Changed;
    if i != k { InsertedAt(m, m', es, k, e, if i < k then i else i - 1); }
  }

  lemma InsertedAt<T>(m: Memory<T>, m': Memory<T>, es: Elements<T>, k: int, e: Element<T>, o: int)
    requires Linked(m, es) && 0 <= k < |es| && e in m' && Changed(m, m', {At(es, k - 1), es[k]}) && 0 <= o < |es|
    requires m'[es[k]] == m[es[k]].(prev := e) && (k > 0 ==> m'[es[k - 1]] == m[es[k - 1]].(next := e))
    ensures es[o] in m' && m'[es[o]].next == (if o == k - 1 then e else At(es, o + 1))
    ensures m'[es[o]].prev == if o == k then e else At(es, o - 1)
  {
    assert LinkedAt(m, es, o);
  }

  lemma InsertedElements<T>(m: Memory<T>, m': Memory<T>, es: Elements<T>, k: int, e: Element<T>,
      touched: set<Element?<T>>)
    requires DistinctElements(es) && Held(m, es) && 0 <= k <= |es| && e !in m && e in m' && Changed(m, m', touched)
    ensures var es' := es[..k] + [e] + es[k..];
      && DistinctElements(es') && Held(m', es')
      && Contents(m', es') == Contents(m, es)[..k] + [m'[e].content] + Contents(m, es)[k..]
  {
    var es' := es[..k] + [e] + es[k..];
    assert forall i :: 0 <= i < |es'| ==> es'[i] == if i < k then es[i] else if i == k then e else es[i - 1];
  }

  function Without<T>(es: seq<T>, k: int): (r: seq<T>)
    requires 0 <= k < |es|
    ensures |r| == |es| - 1 && forall i :: 0 <= i < |r| ==> r[i] == if i < k then es[i] else es[i + 1]
  {
    es[..k] + es[k + 1..]
  }

  /** The neighbours of an element are linked to each other. */
  lemma Removed<T>(m: Memory<T>, m': Memory<T>, es: Elements<T>, k: int)
    requires Linked(m, es) && 0 <= k < |es| && Changed(m, m', {At(es, k - 1), At(es, k + 1)})
    requires k > 0 ==> es[k - 1] in m && m'[es[k - 1]] == m[es[k - 1]].(next := At(es, k + 1))
    requires k + 1 < |es| ==> es[k + 1] in m && m'[es[k + 1]] == m[es[k + 1]].(prev := At(es, k - 1))
    ensures Linked(m', Without(es, k)) && Contents(m', Without(es, k)) == Without(Contents(m, es), k)
  {
    var es' := Without(es, k);
    forall i | 0 <= i < |es'|
      ensures LinkedAt(m', es', i)
    {
      assert LinkedAt(m, es, if i < k then i else i + 1);
    }
  }

  /** The ends are joined and the list is cut before position k. */
  lemma Rotated<T>(m: Memory<T>, m': Memory<T>, es: Elements<T>, k: int)
    requires Linked(m, es) && 0 < k < |es| && Changed(m, m', {es[0], es[|es| - 1], es[k], es[k - 1]})
    requires forall i :: 0 <= i < |es| ==>
      && m'[es[i]].next == (if i == k - 1 then null else if i == |es| - 1 then es[0] else m[es[i]].next)
      && m'[es[i]].prev == (if i == k then null else if i == 0 then es[|es| - 1] else m[es[i]].prev)
    ensures Linked(m', es[k..] + es[..k])
    ensures Contents(m', es[k..] + es[..k]) == Contents(m, es)[k..] + Contents(m, es)[..k]
  {
    hide DistinctElements, Contents, Changed, At, LinkedAt;
    RotatedElements(m, m', es, k, {es[0], es[|es| - 1], es[k], es[k - 1]});
    forall i | 0 <= i < |es|
      ensures LinkedAt(m', es[k..] + es[..k], i)
    {
      RotatedLink(m, m', es, k, i);
    }
  }

  lemma RotatedLink<T>(m: Memory<T>, m': Memory<T>, es: Elements<T>, k: int, i: int)
    requires Linked(m, es) && 0 < k < |es| && Held(m', es) && 0 <= i < |es|
    requires var o := if i < |es| - k then i + k else i - (|es| - k);
      && m'[es[o]].next == (if o == k - 1 then null else if o == |es| - 1 then es[0] else m[es[o]].next)
      && m'[es[o]].prev == (if o == k then null else if o == 0 then es[|es| - 1] else m[es[o]].prev)
    ensures var es' := es[k..] + es[..k]; es'[i] in m' && LinkedAt(m', es', i)
  {
    hide DistinctElements;
    assert LinkedAt(m, es, if i < |es| - k then i + k else i - (|es| - k));
  }

  lemma RotatedElements<T>(m: Memory<T>, m': Memory<T>, es: Elements<T>, k: int, touched: set<Element?<T>>)
    requires DistinctElements(es) && Held(m, es) && 0 <= k <= |es| && Changed(m, m', touched)
    ensures var es' := es[k..] + es[..k];
      Held(m', es) && DistinctElements(es') && Held(m', es')
      && Contents(m', es') == Contents(m, es)[k..] + Contents(m, es)[..k]
  {
    var es', n := es[k..] + es[..k], |es|;
    assert forall i :: 0 <= i < n ==> es'[i] == es[if i < n - k then i + k else i - (n - k)];
  }

  /** The elements in memory are linked and hold the values. */
  ghost predicate Represents<T>(m: Memory<T>, es: Elements<T>, vs: seq<T>) {
    Linked(m, es) && Contents(m, es) == vs
  }

  lemma RepresentsAt<T>(m: Memory<T>, es: Elements<T>, vs: seq<T>, i: int)
    requires Represents(m, es, vs)
    ensures |vs| == |es|
    ensures 0 <= i < |es| ==> es[i] in m && m[es[i]] == Rec(At(es, i - 1), At(es, i + 1), vs[i])
    ensures |es| > 0 ==> es[|es| - 1] in m && es[0] in m
    ensures 0 < i < |es| ==> es[i - 1] in m
  {
    assert 0 <= i < |es| ==> LinkedAt(m, es, i);
  }

  /** The memory after the assignments of ListAppend. */
  ghost function AppendMemory<T>(m: Memory<T>, last: Element?<T>, e: Element<T>, content: T): Memory<T>
    requires last != null ==> last in m
  {
    var m1 := m[e := Rec(last, null, content)];
    if last == null then m1 else m1[last := m1[last].(next := e)]
  }

  lemma AppendedNow<T>(m: Memory<T>, es: Elements<T>, vs: seq<T>, e: Element<T>, content: T)
    requires Represents(m, es, vs) && e !in m
    ensures |es| > 0 ==> es[|es| - 1] in m
    ensures Represents(AppendMemory(m, At(es, |es| - 1), e, content), es + [e], vs + [content])
  {
    Appended(m, AppendMemory(m, At(es, |es| - 1), e, content), es, e);
  }

  /** The memory after the assignments of ListInsert. */
  ghost function InsertMemory<T>(m: Memory<T>, p: Element?<T>, index: Element<T>, e: Element<T>, content: T): Memory<T>
    requires index in m && (p != null ==> p in m)
  {
    var m1 := m[e := Rec(p, index, content)];
    var m2 := m1[index := m1[index].(prev := e)];
    if p == null then m2 else m2[p := m2[p].(next := e)]
  }

  lemma InsertedNow<T>(m: Memory<T>, es: Elements<T>, vs: seq<T>, k: int, e: Element<T>, content: T)
    requires Represents(m, es, vs) && 0 <= k < |es| && e !in m
    ensures |vs| == |es| && es[k] in m && (k > 0 ==> es[k - 1] in m)
    ensures Represents(InsertMemory(m, At(es, k - 1), es[k], e, content), es[..k] + [e] + es[k..],
        vs[..k] + [content] + vs[k..])
  {
    Inserted(m, InsertMemory(m, At(es, k - 1), es[k], e, content), es, k, e);
  }

  /** Two neighbours, each possibly missing, are linked to each other. */
  ghost function Bridged<T>(m: Memory<T>, p: Element?<T>, n: Element?<T>): Memory<T>
    requires (p != null ==> p in m) && (n != null ==> n in m)
  {
    var m1 := if p == null then m else m[p := m[p].(next := n)];
    if n == null then m1 else m1[n := m1[n].(prev := p)]
  }

  lemma BridgedRemoves<T>(m: Memory<T>, es: Elements<T>, vs: seq<T>, k: int)
    requires Represents(m, es, vs) && 0 <= k < |es|
    ensures var p, n := At(es, k - 1), At(es, k + 1);
      && (p != null ==> p in m) && (n != null ==> n in m) && |vs| == |es|
      && Represents(Bridged(m, p, n) - {es[k]}, Without(es, k), Without(vs, k))
  {
    assert LinkedAt(m, es, k);
    var m1 := Bridged(m, At(es, k - 1), At(es, k + 1));
    assert k > 0 && k + 1 < |es| ==> es[k - 1] != es[k + 1];
    Removed(m, m1, es, k);
    Forgotten(m1, Without(es, k), es[k]);
  }

  lemma Forgotten<T>(m: Memory<T>, es: Elements<T>, e: Element<T>)
    requires Linked(m, es) && e !in es
    ensures Linked(m - {e}, es) && Contents(m - {e}, es) == Contents(m, es)
  {
    assert forall i :: 0 <= i < |es| ==> es[i] in es;
    forall i | 0 <= i < |es|
      ensures LinkedAt(m - {e}, es, i)
    {
      assert LinkedAt(m, es, i);
    }
  }

  /** The memory after the six assignments of the rotation. */
  ghost function StartMemory<T>(m: Memory<T>, f: Element<T>, l: Element<T>, e: Element<T>, p: Element<T>): Memory<T>
    requires f in m && l in m && e in m && p in m
  {
    var m1 := m[f := m[f].(prev := l)];
    var m2 := m1[l := m1[l].(next := f)];
    var m3 := m2[e := m2[e].(prev := null)];
    m3[p := m3[p].(next := null)]
  }

  lemma RotatedNow<T>(m: Memory<T>, es: Elements<T>, vs: seq<T>, k: int)
    requires Represents(m, es, vs) && 0 < k < |es|
    ensures |vs| == |es| && es[0] in m && es[|es| - 1] in m && es[k] in m && es[k - 1] in m
    ensures Represents(StartMemory(m, es[0], es[|es| - 1], es[k], es[k - 1]), es[k..] + es[..k], vs[k..] + vs[..k])
  {
    Rotated(m, StartMemory(m, es[0], es[|es| - 1], es[k], es[k - 1]), es, k);
  }

  /** The prev pointer of the new first element is not touched by joining the ends. */
  lemma PrevKept<T>(m: Memory<T>, es: Elements<T>, vs: seq<T>, k: int)
    requires Represents(m, es, vs) && 0 < k < |es|
    ensures es[0] in m && es[|es| - 1] in m && es[k] in m && es[0] != es[k]
    ensures var f, l := es[0], es[|es| - 1]; var m1 := m[f := m[f].(prev := l)];
      m1[l := m1[l].(next := f)][es[k]].prev == es[k - 1]
  {
    assert LinkedAt(m, es, k);
  }

  /** The current element stays in the list unless it is the one taken out. */
  lemma CurrentKept<T>(es: Elements<T>, at: int, current: Element?<T>)
    requires 0 <= at < |es|
    ensures current != null && current in es && current != es[at] ==> current in Without(es, at)
    ensures at + 1 < |es| ==> es[at + 1] in Without(es, at)
    ensures at > 0 ==> es[at - 1] in Without(es, at)
  {
    var r := Without(es, at);
    if current != null && current in es && current != es[at] {
      var i :| 0 <= i < |es| && es[i] == current;
      assert r[if i < at then i else i - 1] == current;
    }
    assert at + 1 < |es| ==> r[at] == es[at + 1];
    assert at > 0 ==> r[at - 1] == es[at - 1];
  }

  /** What a search result says about the plain search. */
  lemma MatchAt<T>(s: seq<T>, matches: T -> bool, at: int)
    ensures -1 <= FirstMatch(s, matches) < |s|
    ensures 0 <= at < |s| && matches(s[at]) ==>
      FirstMatch(s, matches) >= 0 && (AtMostOne(s, matches) ==> FirstMatch(s, matches) == at)
    ensures FirstMatch(s, matches) < 0 <==> forall i :: 0 <= i < |s| ==> !matches(s[i])
    ensures FirstMatch(s, matches) >= 0 ==> matches(s[FirstMatch(s, matches)])
  {
    if 0 <= at < |s| && matches(s[at]) && AtMostOne(s, matches) {
      OnlyMatch(s, matches, at);
    }
  }

  class List<T(!new)> {
    var first: Element?<T>
    var last: Element?<T>
    var current: Element?<T>
    var count: nat
    ghost var mem: Memory<T>
    ghost var elems: Elements<T>
    ghost var values: seq<T>

    ghost predicate Mirrors()
      reads this`mem, mem.Keys
    {
      forall e :: e in mem ==> e.Fields() == mem[e]
    }

    /** The list is the sequence elems, which holds values: the links, the ends and the count agree with it, and
        current is one of its elements or null. */
    ghost predicate Valid()
      reads this, mem.Keys
    {
      && Mirrors() && Represents(mem, elems, values)
      && first == At(elems, 0) && last == At(elems, |elems| - 1) && count == |elems|
      && (current != null ==> current in elems)
    }

    constructor ()
      ensures Valid() && elems == [] && values == [] && current == null && fresh(mem.Keys)
    {
      first, last, current, count, elems, mem, values := null, null, null, 0, [], map[], [];
    }

    method SetNext(e: Element<T>, n: Element?<T>)
      requires Mirrors() && e in mem
      modifies this`mem, e
      ensures Mirrors() && mem.Keys == old(mem.Keys) && mem == old(mem)[e := old(mem)[e].(next := n)]
    {
      e.next := n;
      mem := mem[e := mem[e].(next := n)];
    }

    method SetPrev(e: Element<T>, p: Element?<T>)
      requires Mirrors() && e in mem
      modifies this`mem, e
      ensures Mirrors() && mem.Keys == old(mem.Keys) && mem == old(mem)[e := old(mem)[e].(prev := p)]
    {
      e.prev := p;
      mem := mem[e := mem[e].(prev := p)];
    }

    /** The element is allocated and its links are set. */
    method NewElement(content: T, prev: Element?<T>, next: Element?<T>) returns (e: Element<T>)
      requires Mirrors()
      modifies this`mem
      ensures Mirrors() && fresh(e) && e !in old(mem) && mem == old(mem)[e := Rec(prev, next, content)]
    {
      e := new Element(content);
      e.prev, e.next := prev, next;
      mem := mem[e := e.Fields()];
    }

    /** The element's memory is no longer the list's. */
    ghost method Drop(e: Element<T>)
      requires Mirrors()
      modifies this`mem
      ensures Mirrors() && mem == old(mem) - {e}
    {
      mem := mem - {e};
    }

    /** What the fields of an element of the list are. */
    lemma Around(i: int)
      requires Mirrors() && Represents(mem, elems, values) && 0 <= i < |elems|
      ensures |values| == |elems| && elems[i] in mem
      ensures elems[i].Fields() == Rec(At(elems, i - 1), At(elems, i + 1), values[i])
    {
      RepresentsAt(mem, elems, values, i);
    }

    /** ListAppend. */
    method Append(content: T)
      requires Valid()
      modifies this, mem.Keys
      ensures Valid() && fresh(mem.Keys - old(mem.Keys)) && current == old(current)
      ensures |elems| == |old(elems)| + 1 && elems == old(elems) + [elems[|old(elems)|]]
      ensures values == old(values) + [content]
    {
      hide Mirrors, Represents;
      RepresentsAt(mem, elems, values, 0);
      ghost var m := mem;
      var newel := NewElement(content, last, null);
      if first == null {
        first := newel;
      } else {
        SetNext(last, newel);
      }
      last := newel;
      count := count + 1;
      AppendedNow(m, elems, values, newel, content);
      elems, values := elems + [newel], values + [content];
    }

    /** ListInsert, before an element of the list; at is its position. */
    method InsertBefore(content: T, index: Element<T>, ghost at: int)
      requires Valid() && 0 <= at < |elems| && elems[at] == index
      modifies this, mem.Keys
      ensures Valid() && current == old(current) && fresh(mem.Keys - old(mem.Keys)) && |old(values)| == |old(elems)|
      ensures |elems| == |old(elems)| + 1 && elems == old(elems)[..at] + [elems[at]] + old(elems)[at..]
      ensures values == old(values)[..at] + [content] + old(values)[at..]
    {
      hide Mirrors, Represents;
      Around(at);
      RepresentsAt(mem, elems, values, at);
      ghost var m := mem;
      var p := index.prev;
      var newel := NewElement(content, p, index);
      LinkBefore(newel, index, p);
      count := count + 1;
      InsertedNow(m, elems, values, at, newel, content);
      InsertedEnds(elems, at, newel);
      elems, values := elems[..at] + [newel] + elems[at..], values[..at] + [content] + values[at..];
    }

    method LinkBefore(newel: Element<T>, index: Element<T>, p: Element?<T>)
      requires Mirrors() && index in mem && (p != null ==> p in mem)
      modifies this`first, this`mem, index, p
      ensures Mirrors() && mem.Keys == old(mem.Keys) && first == if p == null then newel else old(first)
      ensures var m := old(mem); var m2 := m[index := m[index].(prev := newel)];
        mem == if p == null then m2 else m2[p := m2[p].(next := newel)]
    {
      hide Mirrors;
      SetPrev(index, newel);
      if p != null {
        SetNext(p, newel);
      } else {
        first := newel;
      }
    }

    /** ListFindItem. The cached element is taken if it matches; otherwise the search is linear. So it agrees with
        plain linear search just when the cached element does not match or is itself the first match. */
    method FindItem(matches: T -> bool) returns (r: Element?<T>, ghost at: int)
      requires Valid()
      modifies this`current
      ensures Valid() && current == (if r != null then r else old(current)) && |values| == |elems|
      ensures -1 <= at < |elems| && r == At(elems, at) && (at < 0 <==> FirstMatch(values, matches) < 0)
      ensures at >= 0 ==> matches(values[at])
      ensures at == FirstMatch(values, matches) <==>
        (old(current) == null || !Cached(elems, values, old(current), matches)
                                                      || old(current) == At(elems, FirstMatch(values, matches)))
      ensures AtMostOne(values, matches) ==> at == FirstMatch(values, matches)
    {
      hide Mirrors, Represents, FirstMatch, AtMostOne, DistinctElements;
      var cached := false;
      ghost var c := -1;
      Unique(mem, elems, values);
      if current != null {
        c :| 0 <= c < |elems| && elems[c] == current;
        Around(c);
        CachedIs(elems, values, c, matches);
        cached := matches(current.content);
      }
      if cached {
        r, at := current, c;
        MatchAt(values, matches, at);
        SamePlace(elems, at, FirstMatch(values, matches));
      } else {
        r, at := FindFirst(matches);
        MatchAt(values, matches, at);
        if r != null {
          current := r;
        }
      }
    }

    /** The search loop of ListFindItem. */
    method FindFirst(matches: T -> bool) returns (r: Element?<T>, ghost at: int)
      requires Valid()
      ensures at == FirstMatch(values, matches) && -1 <= at < |elems| && r == At(elems, at)
    {
      hide Mirrors, Represents, FirstMatch;
      RepresentsAt(mem, elems, values, 0);
      r := first;
      at := 0;
      while r != null
        invariant 0 <= at <= |elems| && r == At(elems, at)
        invariant forall j :: 0 <= j < at ==> !matches(values[j])
        invariant r == null ==> at == |elems|
        decreases |elems| - at
      {
        Around(at);
        if matches(r.content) { break; }
        r := r.next;
        at := at + 1;
      }
      if r != null { Around(at); }
      FirstMatchIs(values, matches, at);
      if r == null { at := -1; }
    }

    /** An element is taken out of the links, and freed. */
    method TakeOut(e: Element<T>, ghost at: int) returns (next: Element?<T>)
      requires Mirrors() && Represents(mem, elems, values) && 0 <= at < |elems| && elems[at] == e
      requires first == At(elems, 0) && last == At(elems, |elems| - 1)
      modifies this`first, this`last, this`mem, this`elems, this`values, mem.Keys
      ensures Mirrors() && mem.Keys <= old(mem.Keys) && Represents(mem, elems, values) && |old(values)| == |old(elems)|
      ensures elems == Without(old(elems), at) && values == Without(old(values), at) && next == At(old(elems), at + 1)
      ensures first == At(elems, 0) && last == At(elems, |elems| - 1)
    {
      hide Mirrors, Represents, Without;
      Around(at);
      ghost var m := mem;
      BridgedRemoves(m, elems, values, at);
      WithoutEnds(elems, at);
      var p, n := e.prev, e.next;
      if p == null {
        first := n;
      } else {
        SetNext(p, n);
      }
      if n == null {
        last := p;
      } else {
        SetPrev(n, p);
      }
      next := n;
      assert mem == Bridged(m, p, n);
      Drop(e);
      elems, values := Without(elems, at), Without(values, at);
    }

    /** ListUnlink: the element found is removed. If it was the current one, the next becomes current. */
    method Unlink(matches: T -> bool) returns (removed: bool, ghost at: int)
      requires Valid()
      modifies this, mem.Keys
      ensures Valid() && mem.Keys <= old(mem.Keys) && removed == (at >= 0)
      ensures at < 0 <==> FirstMatch(old(values), matches) < 0
      ensures at < 0 ==> elems == old(elems) && values == old(values) && current == old(current)
      ensures at >= 0 ==> at < |old(elems)| == |old(values)| && matches(old(values)[at])
      ensures at >= 0 ==> elems == Without(old(elems), at) && values == Without(old(values), at)
      ensures at >= 0 && AtMostOne(old(values), matches) ==> at == FirstMatch(old(values), matches)
      ensures at >= 0 ==> current == if old(current) == old(elems)[at] then At(old(elems), at + 1) else old(current)
    {
      hide Mirrors, Represents, FirstMatch, AtMostOne, Without, Cached;
      var saved := current;
      var found;
      found, at := FindItem(matches);
      removed := found != null;
      if removed {
        CurrentKept(elems, at, saved);
        WithoutLength(elems, at);
        var next := TakeOut(found, at);
        current := if saved == found then next else saved;
        count := count - 1;
      }
    }

    /** ListDetachHead. */
    method DetachHead() returns (content: Option<T>)
      requires Valid()
      modifies this, mem.Keys
      ensures Valid() && mem.Keys <= old(mem.Keys) && |old(values)| == |old(elems)|
      ensures |old(elems)| == 0 ==>
        content == None && elems == old(elems) && values == old(values) && current == old(current)
      ensures |old(elems)| > 0 ==> content == Some(old(values)[0])
      ensures |old(elems)| > 0 ==> elems == Without(old(elems), 0) && values == Without(old(values), 0)
      ensures |old(elems)| > 0 ==> current == if old(current) == old(elems)[0] then At(old(elems), 1) else old(current)
    {
      hide Mirrors, Represents, Without;
      Unique(mem, elems, values);
      content := None;
      if count > 0 {
        Around(0);
        CurrentKept(elems, 0, current);
        WithoutLength(elems, 0);
        var head := first;
        content := Some(head.content);
        var next := TakeOut(head, 0);
        if current == head {
          current := next;
        }
        count := count - 1;
      }
    }

    /** ListPopTail. Here the element before becomes current. */
    method PopTail() returns (content: Option<T>)
      requires Valid()
      modifies this, mem.Keys
      ensures Valid() && mem.Keys <= old(mem.Keys) && |old(values)| == |old(elems)|
      ensures |old(elems)| == 0 ==>
        content == None && elems == old(elems) && values == old(values) && current == old(current)
      ensures |old(elems)| > 0 ==>
        var n := |old(elems)| - 1;
        && content == Some(old(values)[n]) && elems == Without(old(elems), n) && values == Without(old(values), n)
        && current == if old(current) == old(elems)[n] then At(old(elems), n - 1) else old(current)
    {
      hide Mirrors, Represents, Without;
      Unique(mem, elems, values);
      content := None;
      if count > 0 {
        ghost var n := |elems| - 1;
        Around(n);
        CurrentKept(elems, n, current);
        WithoutLength(elems, n);
        var tail := last;
        var prev := tail.prev;
        content := Some(tail.content);
        var _ := TakeOut(tail, n);
        if current == tail {
          current := prev;
        }
        count := count - 1;
      }
    }

    /** MQTTPersistence_wrapMsgID's relinking: the element at position k is put at the beginning of the list. */
    method StartAt(wrapel: Element<T>, ghost k: int)
      requires Valid() && 0 < k < |elems| && elems[k] == wrapel
      modifies this, mem.Keys
      ensures Valid() && mem.Keys == old(mem.Keys) && current == old(current) && |old(values)| == |old(elems)|
      ensures elems == old(elems)[k..] + old(elems)[..k] && values == old(values)[k..] + old(values)[..k]
    {
      hide Mirrors, Represents, StartMemory;
      PrevKept(mem, elems, values, k);
      RotatedNow(mem, elems, values, k);
      Relink(wrapel, elems[k - 1]);
      RotatedEnds(elems, k);
      elems, values := elems[k..] + elems[..k], values[k..] + values[..k];
    }

    /** Its pointer assignments; before is the element before. */
    method Relink(wrapel: Element<T>, ghost before: Element<T>)
      requires Mirrors() && first != null && last != null && first in mem && last in mem && wrapel in mem
      requires before in mem
      requires var m1 := mem[first := mem[first].(prev := last)];
        m1[last := m1[last].(next := first)][wrapel].prev == before
      modifies this`first, this`last, this`mem, mem.Keys
      ensures Mirrors() && mem.Keys == old(mem.Keys) && first == wrapel && last == before
      ensures mem == StartMemory(old(mem), old(first), old(last), wrapel, before)
    {
      hide Mirrors;
      JoinEnds(first, last);
      var p := PrevOf(wrapel);
      first := wrapel;
      last := p;
      CutBefore(wrapel, p);
    }

    method JoinEnds(f: Element<T>, l: Element<T>)
      requires Mirrors() && f in mem && l in mem
      modifies this`mem, f, l
      ensures Mirrors() && mem.Keys == old(mem.Keys)
      ensures var m := old(mem); var m1 := m[f := m[f].(prev := l)]; mem == m1[l := m1[l].(next := f)]
    {
      hide Mirrors;
      SetPrev(f, l);
      SetNext(l, f);
    }

    method CutBefore(e: Element<T>, p: Element<T>)
      requires Mirrors() && e in mem && p in mem
      modifies this`mem, e, p
      ensures Mirrors() && mem.Keys == old(mem.Keys)
      ensures var m := old(mem); var m1 := m[e := m[e].(prev := null)]; mem == m1[p := m1[p].(next := null)]
    {
      hide Mirrors;
      SetPrev(e, null);
      SetNext(p, null);
    }

    method PrevOf(e: Element<T>) returns (p: Element?<T>)
      requires Mirrors() && e in mem
      ensures p == mem[e].prev
    {
      p := e.prev;
      assert e.Fields() == mem[e];
    }
  }

  /** The cached element matches. */
  ghost predicate Cached<T>(es: Elements<T>, vs: seq<T>, current: Element<T>, matches: T -> bool) {
    exists i :: 0 <= i < |es| && i < |vs| && es[i] == current && matches(vs[i])
  }

  lemma CachedIs<T>(es: Elements<T>, vs: seq<T>, c: int, matches: T -> bool)
    requires DistinctElements(es) && |vs| == |es| && 0 <= c < |es|
    ensures Cached(es, vs, es[c], matches) <==> matches(vs[c])
  {
  }

  lemma Unique<T>(m: Memory<T>, es: Elements<T>, vs: seq<T>)
    requires Represents(m, es, vs)
    ensures DistinctElements(es) && |vs| == |es|
  {
  }

  lemma SamePlace<T>(es: Elements<T>, i: int, j: int)
    requires DistinctElements(es) && 0 <= i < |es| && -1 <= j < |es|
    ensures At(es, i) == At(es, j) <==> i == j
  {
  }

  lemma InsertedEnds<T>(es: Elements<T>, k: int, e: Element<T>)
    requires 0 <= k < |es|
    ensures var es' := es[..k] + [e] + es[k..];
      At(es', 0) == (if k == 0 then e else At(es, 0)) && At(es', |es'| - 1) == At(es, |es| - 1) && es'[k] == e
      && forall x :: x in es ==> x in es'
  {
    var es' := es[..k] + [e] + es[k..];
    forall x | x in es
      ensures x in es'
    {
      var i :| 0 <= i < |es| && es[i] == x;
      assert es'[if i < k then i else i + 1] == x;
    }
  }

  lemma WithoutEnds<T>(es: Elements<T>, k: int)
    requires 0 <= k < |es|
    ensures var r := Without(es, k);
      && At(r, 0) == (if k == 0 then At(es, 1) else At(es, 0))
      && At(r, |r| - 1) == (if k == |es| - 1 then At(es, k - 1) else At(es, |es| - 1))
  {
  }

  lemma WithoutLength<T>(es: Elements<T>, k: int)
    requires 0 <= k < |es|
    ensures |Without(es, k)| == |es| - 1
  {
  }

  lemma RotatedEnds<T>(es: Elements<T>, k: int)
    requires 0 < k < |es|
    ensures var r := es[k..] + es[..k];
      At(r, 0) == es[k] && At(r, |r| - 1) == es[k - 1] && |r| == |es| && forall x :: x in es ==> x in r
  {
    var r := es[k..] + es[..k];
    forall x | x in es
      ensures x in r
    {
      var i :| 0 <= i < |es| && es[i] == x;
      assert r[if i >= k then i - k else i + |es| - k] == x;
    }
  }
}
