/** MQTT 5 property lists (section 2.2.2 of MQTT 5.0): MQTTProperties.c. */
module Properties {
  import opened Bytes
  import Vbi

  datatype PropertyType =
    | ByteType | TwoByteType | FourByteType | VariableByteType | BinaryType | StringType | StringPairType

  /** The table that maps each property identifier to the type of its value. */
  const NAMES_TO_TYPES: seq<(byte, PropertyType)> := [
    (1, ByteType), (2, FourByteType), (3, StringType), (8, StringType), (9, BinaryType),
    (11, VariableByteType), (17, FourByteType), (18, StringType), (19, TwoByteType), (21, StringType),
    (22, BinaryType), (23, ByteType), (24, FourByteType), (25, ByteType), (26, StringType),
    (28, StringType), (31, StringType), (33, TwoByteType), (34, TwoByteType), (35, TwoByteType),
    (36, ByteType), (37, ByteType), (38, StringPairType), (39, FourByteType), (40, ByteType),
    (41, ByteType), (42, ByteType)]

  /** The identifiers of each type (section 2.2.2.2 of MQTT 5.0). */
  function TypeOf(id: byte): (r: Option<PropertyType>) {
    if id == 1 || id == 23 || id == 25 || id == 36 || id == 37 || id == 40 || id == 41 || id == 42 then Some(ByteType)
    else if id == 19 || id == 33 || id == 34 || id == 35 then Some(TwoByteType)
    else if id == 2 || id == 17 || id == 24 || id == 39 then Some(FourByteType)
    else if id == 11 then Some(VariableByteType)
    else if id == 9 || id == 22 then Some(BinaryType)
    else if id == 3 || id == 8 || id == 18 || id == 21 || id == 26 || id == 28 || id == 31 then Some(StringType)
    else if id == 38 then Some(StringPairType)
    else None
  }

  /** MQTTProperty_getType's search of the table. */
  method GetType(id: byte) returns (r: Option<PropertyType>)
    ensures r == TypeOf(id)
  {
    var i := 0;
    while i < |NAMES_TO_TYPES|
      invariant 0 <= i <= |NAMES_TO_TYPES|
      invariant forall j :: 0 <= j < i ==> NAMES_TO_TYPES[j].0 != id
    {
      if NAMES_TO_TYPES[i].0 == id {
        return Some(NAMES_TO_TYPES[i].1);
      }
      i := i + 1;
    }
    EveryRow();
    return None;
  }

  lemma EveryRow()
    ensures var T := NAMES_TO_TYPES;
        && T[0].0 == 1 && T[1].0 == 2 && T[2].0 == 3 && T[3].0 == 8 && T[4].0 == 9 && T[5].0 == 11 && T[6].0 == 17
        && T[7].0 == 18 && T[8].0 == 19 && T[9].0 == 21 && T[10].0 == 22 && T[11].0 == 23 && T[12].0 == 24
        && T[13].0 == 25 && T[14].0 == 26 && T[15].0 == 28 && T[16].0 == 31 && T[17].0 == 33 && T[18].0 == 34
        && T[19].0 == 35 && T[20].0 == 36 && T[21].0 == 37 && T[22].0 == 38 && T[23].0 == 39 && T[24].0 == 40
        && T[25].0 == 41 && T[26].0 == 42
  {
  }

  datatype Value =
    | Number(n: int)
    | Data(data: seq<byte>)
    | Pair(name: seq<byte>, value: seq<byte>)

  datatype Property = Property(id: byte, value: Value)

  /** The value is of the identifier's type and in that type's range. */
  predicate WellFormed(p: Property) {
    match TypeOf(p.id)
    case None => false
    case Some(ByteType) => p.value.Number? && 0 <= p.value.n < 256
    case Some(TwoByteType) => p.value.Number? && 0 <= p.value.n < 65536
    case Some(FourByteType) => p.value.Number? && 0 <= p.value.n < 0x1_0000_0000
    case Some(VariableByteType) => p.value.Number? && 0 <= p.value.n < Vbi.VBI_LIMIT
    case Some(BinaryType) => p.value.Data? && |p.value.data| < 65536
    case Some(StringType) => p.value.Data? && |p.value.data| < 65536
    case Some(StringPairType) => p.value.Pair? && |p.value.name| < 65536 && |p.value.value| < 65536
  }

  /** Every four-byte value is one that writeInt4 stores faithfully. */
  predicate Faithful(p: Property) {
    TypeOf(p.id) == Some(FourByteType) && p.value.Number? ==> Int4Survives(p.value.n)
  }

  /** The length MQTTProperties_add accounts for, identifier byte included. */
  function AddedLength(p: Property): (r: nat)
    requires WellFormed(p)
    ensures r >= 2
  {
    1 + match TypeOf(p.id).value
    case ByteType => 1
    case TwoByteType => 2
    case FourByteType => 4
    case VariableByteType => Vbi.Length(p.value.n)
    case BinaryType => 2 + |p.value.data|
    case StringType => 2 + |p.value.data|
    case StringPairType => 2 + |p.value.name| + 2 + |p.value.value|
  }

  function WriteString(s: seq<byte>): (r: seq<byte>)
    requires |s| < 65536
    ensures |r| == 2 + |s|
  {
    WriteInt(|s|) + s
  }

  /** MQTTProperty_write. */
  function Write(p: Property): (r: seq<byte>)
    requires WellFormed(p)
  {
    [p.id] + match TypeOf(p.id).value
    case ByteType => [p.value.n]
    case TwoByteType => WriteInt(p.value.n)
    case FourByteType => WriteInt4(p.value.n)
    case VariableByteType => Vbi.Encode(p.value.n)
    case BinaryType => WriteString(p.value.data)
    case StringType => WriteString(p.value.data)
    case StringPairType => WriteString(p.value.name) + WriteString(p.value.value)
  }

  /** MQTTLenStringRead on the bytes up to the end of the packet: the string and the bytes used. */
  function ReadString(s: seq<byte>): (r: Option<(seq<byte>, nat)>)
    ensures r.Some? ==> r.value.1 == 2 + |r.value.0| <= |s|
  {
    if |s| < 2 || |s| < 2 + ReadInt(s) then None
    else Some((s[2..2 + ReadInt(s)], 2 + ReadInt(s)))
  }

  /** MQTTProperty_read: the property and the bytes used, or None for malformed input. */
  function Read(s: seq<byte>): (r: Option<(Property, nat)>)
    ensures r.Some? ==> 1 <= r.value.1 <= |s|
  {
    if |s| == 0 then None
    else
      var id := s[0];
      var t := s[1..];
      match TypeOf(id)
      case None => None
      case Some(ByteType) => if |t| < 1 then None else Some((Property(id, Number(t[0])), 2))
      case Some(TwoByteType) => if |t| < 2 then None else Some((Property(id, Number(ReadInt(t))), 3))
      case Some(FourByteType) => if |t| < 4 then None else Some((Property(id, Number(ReadInt4(t))), 5))
      case Some(VariableByteType) =>
        var d := Vbi.Decode(t, Vbi.MAX_LENGTH_BYTES);
        if d.None? then None else Some((Property(id, Number(d.value.0)), 1 + d.value.1))
      case Some(StringPairType) =>
        var name := ReadString(t);
        if name.None? then None else
        var value := ReadString(t[name.value.1..]);
        if value.None? then None else
        Some((Property(id, Pair(name.value.0, value.value.0)), 1 + name.value.1 + value.value.1))
      case Some(_) =>
        var d := ReadString(t);
        if d.None? then None else Some((Property(id, Data(d.value.0)), 1 + d.value.1))
  }

  lemma ReadWriteString(s: seq<byte>, rest: seq<byte>)
    requires |s| < 65536
    ensures ReadString(WriteString(s) + rest) == Some((s, 2 + |s|))
  {
    assert WriteString(s) + rest == WriteInt(|s|) + (s + rest);
    ReadWriteInt(|s|, s + rest);
  }

  /** One property: the accounted length is the written length, and reading what was written
      gives the property back exactly when its value is one writeInt4 can carry. */
  lemma ReadWrite(p: Property, rest: seq<byte>)
    requires WellFormed(p)
    ensures |Write(p)| == AddedLength(p)
    ensures Read(Write(p) + rest) == Some((p, AddedLength(p))) <==> Faithful(p)
    ensures Read(Write(p) + rest).Some? && Read(Write(p) + rest).value.1 == AddedLength(p)
  {
    hide TypeOf;
    var s := Write(p) + rest;
    assert s[0] == p.id;
    assert s[1..] == Write(p)[1..] + rest;
    match TypeOf(p.id).value
    case ByteType =>
    case TwoByteType =>
      ReadWriteInt(p.value.n, rest);
    case FourByteType =>
      ReadWriteInt4(p.value.n, rest);
    case VariableByteType =>
      Vbi.LengthIsEncodedLength(p.value.n);
      assert s[1..] == Vbi.Encode(p.value.n) + rest;
      Vbi.DecodeEncode(p.value.n, Vbi.MAX_LENGTH_BYTES, rest);
    case BinaryType =>
      ReadWriteString(p.value.data, rest);
    case StringType =>
      ReadWriteString(p.value.data, rest);
    case StringPairType =>
      var v := WriteString(p.value.value) + rest;
      assert s[1..] == WriteString(p.value.name) + v;
      ReadWriteString(p.value.name, v);
      assert s[1..][2 + |p.value.name|..] == v;
      ReadWriteString(p.value.value, rest);
  }

  /** The sum MQTTProperties_add keeps in the length field. */
  function TotalLength(ps: seq<Property>): (r: nat)
    requires forall p :: p in ps ==> WellFormed(p)
  {
    if |ps| == 0 then 0 else AddedLength(ps[0]) + TotalLength(ps[1..])
  }

  function WriteAll(ps: seq<Property>): (r: seq<byte>)
    requires forall p :: p in ps ==> WellFormed(p)
  {
    if |ps| == 0 then [] else Write(ps[0]) + WriteAll(ps[1..])
  }

  /** The loop of MQTTProperties_read over `left` bytes of properties; None for malformed input. */
  function ReadAll(s: seq<byte>, left: nat): (r: Option<seq<Property>>)
    decreases left
  {
    if left == 0 then Some([])
    else
      var p := Read(s);
      if p.None? || p.value.1 > left then None
      else
        var more := ReadAll(s[p.value.1..], left - p.value.1);
        if more.None? then None else Some([p.value.0] + more.value)
  }

  predicate ListOk(ps: seq<Property>) {
    (forall p :: p in ps ==> WellFormed(p)) && TotalLength(ps) < Vbi.VBI_LIMIT
  }

  /** MQTTProperties_write: the length as a variable byte integer, then the properties. */
  function WriteList(ps: seq<Property>): (r: seq<byte>)
    requires ListOk(ps)
  {
    Vbi.Encode(TotalLength(ps)) + WriteAll(ps)
  }

  /** MQTTProperties_len. */
  function ListLength(ps: seq<Property>): (r: nat)
    requires ListOk(ps)
  {
    TotalLength(ps) + Vbi.Length(TotalLength(ps))
  }

  /** MQTTProperties_read: the list and the bytes used. */
  function ReadList(s: seq<byte>): (r: Option<(seq<Property>, nat)>)
    ensures r.Some? ==> r.value.1 <= |s|
  {
    var n := Vbi.Decode(s, Vbi.MAX_LENGTH_BYTES);
    if n.None? || n.value.1 + n.value.0 > |s| then None
    else
      var ps := ReadAll(s[n.value.1..], n.value.0);
      if ps.None? then None else Some((ps.value, n.value.1 + n.value.0))
  }

  lemma {:induction false} ReadWriteAll(ps: seq<Property>, rest: seq<byte>)
    requires forall p :: p in ps ==> WellFormed(p)
    ensures |WriteAll(ps)| == TotalLength(ps)
    ensures ReadAll(WriteAll(ps) + rest, TotalLength(ps)) == Some(ps) <==> forall p :: p in ps ==> Faithful(p)
    ensures ReadAll(WriteAll(ps) + rest, TotalLength(ps)).Some?
  {
    hide TypeOf, WellFormed, Faithful, Write, Read, AddedLength;
    if |ps| > 0 {
      var tail := WriteAll(ps[1..]) + rest;
      assert WriteAll(ps) + rest == Write(ps[0]) + tail;
      ReadWrite(ps[0], tail);
      ReadWriteAll(ps[1..], rest);
      assert (Write(ps[0]) + tail)[AddedLength(ps[0])..] == tail;
      assert ps == [ps[0]] + ps[1..];
      var first := Read(Write(ps[0]) + tail).value.0;
      var more := ReadAll(tail, TotalLength(ps[1..])).value;
      assert ReadAll(WriteAll(ps) + rest, TotalLength(ps)) == Some([first] + more);
      if [first] + more == ps {
        assert ([first] + more)[0] == ps[0] && ([first] + more)[1..] == ps[1..];
        assert more == ps[1..];
      }
    }
  }

  /** A whole list: MQTTProperties_len is what the writer advances, and the reader returns the same
      list, using all of those bytes, exactly when every four-byte value is faithful. */
  lemma ListRoundTrip(ps: seq<Property>, rest: seq<byte>)
    requires ListOk(ps)
    ensures |WriteList(ps)| == ListLength(ps)
    ensures var r := ReadList(WriteList(ps) + rest);
      r.Some? && r.value.1 == ListLength(ps) && (r.value.0 == ps <==> forall p :: p in ps ==> Faithful(p))
  {
    hide TypeOf, WellFormed, Faithful, WriteAll, ReadAll, TotalLength;
    var n := TotalLength(ps);
    var s := WriteList(ps) + rest;
    Vbi.LengthIsEncodedLength(n);
    assert s == Vbi.Encode(n) + (WriteAll(ps) + rest);
    Vbi.DecodeEncode(n, Vbi.MAX_LENGTH_BYTES, WriteAll(ps) + rest);
    assert s[|Vbi.Encode(n)|..] == WriteAll(ps) + rest;
    ReadWriteAll(ps, rest);
  }

  lemma {:induction false} TotalLengthAppend(ps: seq<Property>, p: Property)
    requires (forall q :: q in ps ==> WellFormed(q)) && WellFormed(p)
    ensures TotalLength(ps + [p]) == TotalLength(ps) + AddedLength(p)
  {
    hide TypeOf, WellFormed, Write, AddedLength;
    if |ps| > 0 {
      assert (ps + [p])[1..] == ps[1..] + [p];
      TotalLengthAppend(ps[1..], p);
    } else {
      assert ps + [p] == [p];
      assert [p][1..] == [];
    }
  }

  lemma {:induction false} WriteAllAppend(ps: seq<Property>, p: Property)
    requires (forall q :: q in ps ==> WellFormed(q)) && WellFormed(p)
    ensures WriteAll(ps + [p]) == WriteAll(ps) + Write(p)
  {
    hide TypeOf, WellFormed, Write, AddedLength;
    if |ps| > 0 {
      assert (ps + [p])[1..] == ps[1..] + [p];
      WriteAllAppend(ps[1..], p);
    } else {
      assert ps + [p] == [p];
      assert [p][1..] == [];
    }
  }

  /** The growing array of properties. */
  class PropertyList {
    var items: seq<Property>
    var maxCount: nat
    var length: nat

    ghost predicate Valid()
      reads this
    {
      && |items| <= maxCount
      && (forall p :: p in items ==> WellFormed(p))
      && length == TotalLength(items)
    }

    constructor ()
      ensures Valid() && items == []
    {
      items, maxCount, length := [], 0, 0;
    }

    /** MQTTProperties_add: refuses an unknown identifier, otherwise appends and accounts for the length.
        A known property is assumed to hold a value of its own type. */
    method Add(p: Property) returns (ok: bool)
      requires Valid()
      requires TypeOf(p.id).Some? ==> WellFormed(p)
      modifies this
      ensures Valid()
      ensures ok == TypeOf(p.id).Some?
      ensures items == if ok then old(items) + [p] else old(items)
    {
      var t := GetType(p.id);
      if t.None? {
        return false;
      }
      if |items| == maxCount {
        maxCount := maxCount + 10;
      }
      TotalLengthAppend(items, p);
      items := items + [p];
      var len := 0;
      match t.value {
        case ByteType => len := 1;
        case TwoByteType => len := 2;
        case FourByteType => len := 4;
        case VariableByteType => len := Vbi.Length(p.value.n);
        case BinaryType => len := 2 + |p.value.data|;
        case StringType => len := 2 + |p.value.data|;
        case StringPairType =>
          len := 2 + |p.value.name|;
          len := len + 2 + |p.value.value|;
      }
      length := length + len + 1;
      ok := true;
    }

    /** MQTTProperties_copy: adds the properties of the source, one at a time, to an empty list. */
    method CopyFrom(source: PropertyList)
      requires source != this && source.Valid()
      modifies this
      ensures Valid() && items == source.items && length == source.length
    {
      hide TypeOf, AddedLength;
      items, maxCount, length := [], 0, 0;
      var i := 0;
      while i < |source.items|
        invariant 0 <= i <= |source.items|
        invariant Valid() && items == source.items[..i]
      {
        var ok := Add(source.items[i]);
        i := i + 1;
      }
      assert source.items[..i] == source.items;
    }

    /** MQTTProperties_write. */
    method WriteTo() returns (buf: seq<byte>)
      requires Valid() && ListOk(items)
      ensures buf == WriteList(items)
    {
      hide TypeOf, WellFormed, Write, AddedLength;
      buf := Vbi.EncodeLoop(length);
      var i := 0;
      while i < |items|
        invariant 0 <= i <= |items|
        invariant buf == Vbi.Encode(length) + WriteAll(items[..i])
      {
        assert items[..i + 1] == items[..i] + [items[i]];
        WriteAllAppend(items[..i], items[i]);
        buf := buf + Write(items[i]);
        i := i + 1;
      }
      assert items[..i] == items;
    }
  }

  /** The loop of MQTTProperties_read computes the recursive reading. */
  method ReadLoop(s: seq<byte>) returns (r: Option<(seq<Property>, nat)>)
    ensures r == ReadList(s)
  {
    hide Read;
    var n := Vbi.DecodeLoop(s);
    if n.None? || n.value.1 + n.value.0 > |s| {
      return None;
    }
    var pos, left := n.value.1, n.value.0;
    var ps: seq<Property> := [];
    ghost var all := ReadAll(s[pos..], left);
    assert all.Some? ==> ps + all.value == all.value;
    while left > 0
      invariant pos + left == n.value.1 + n.value.0
      invariant 0 <= left && 0 <= pos
      invariant all == Prefixed(ps, ReadAll(s[pos..], left))
      decreases left
    {
      var p := Read(s[pos..]);
      if p.None? || p.value.1 > left {
        return None;
      }
      assert s[pos..][p.value.1..] == s[pos + p.value.1..];
      ghost var more := ReadAll(s[pos + p.value.1..], left - p.value.1);
      assert more.Some? ==> ps + ([p.value.0] + more.value) == ps + [p.value.0] + more.value;
      ps := ps + [p.value.0];
      pos := pos + p.value.1;
      left := left - p.value.1;
    }
    assert ps + [] == ps;
    return Some((ps, pos));
  }

  ghost function Prefixed(ps: seq<Property>, more: Option<seq<Property>>): Option<seq<Property>> {
    if more.None? then None else Some(ps + more.value)
  }
}
