/** PUBLISH and acknowledgement packets as bytes (section 3.3 of MQTT 5.0): the senders and parsers of MQTTPacket.c. */
module Packets {
  import opened Bytes
  import Properties
  import Vbi

  const PUBLISH := 3
  const PUBACK := 4
  const PUBREC := 5
  const PUBREL := 6
  const PUBCOMP := 7

  datatype Publish = Publish(
    dup: bool, qos: int, retain: bool, topic: seq<byte>, id: int,
    properties: seq<Properties.Property>, payload: seq<byte>)

  function Bit(b: bool): (r: int)
    ensures 0 <= r <= 1
  {
    if b then 1 else 0
  }

  /** The fixed header byte, whose fields the source overlays as bits. */
  function Header(kind: int, dup: bool, qos: int, retain: bool): (r: byte)
    requires 0 <= kind < 16 && 0 <= qos < 4
  {
    16 * kind + 8 * Bit(dup) + 2 * qos + Bit(retain)
  }

  function HeaderKind(h: byte): int { h / 16 }
  function HeaderDup(h: byte): bool { h / 8 % 2 == 1 }
  function HeaderQos(h: byte): int { h / 2 % 4 }
  function HeaderRetain(h: byte): bool { h % 2 == 1 }

  /** The header bits are independent. */
  lemma HeaderFields(kind: int, dup: bool, qos: int, retain: bool)
    requires 0 <= kind < 16 && 0 <= qos < 4
    ensures var h := Header(kind, dup, qos, retain);
      HeaderKind(h) == kind && HeaderDup(h) == dup && HeaderQos(h) == qos && HeaderRetain(h) == retain
  {
    var h := Header(kind, dup, qos, retain);
    assert h / 16 == kind;
    assert h / 8 == 2 * kind + Bit(dup);
    assert h / 2 == 8 * kind + 4 * Bit(dup) + qos;
  }

  /** What a caller of MQTTPacket_send_publish must supply for the packet to be representable:
      the topic is a C string, and the lengths fit their fields. */
  predicate Sendable(v5: bool, p: Publish) {
    && 0 <= p.qos <= 2 && 0 <= p.id < 65536 && (p.qos == 0 ==> p.id == 0)
    && |p.topic| < 65536 && 0 !in p.topic
    && (if v5 then Properties.ListOk(p.properties) else p.properties == [])
    && |Body(v5, p)| < Vbi.VBI_LIMIT
  }

  function Body(v5: bool, p: Publish): (r: seq<byte>) {
    if |p.topic| < 65536 && 0 <= p.id < 65536 && (v5 ==> Properties.ListOk(p.properties)) then
      WriteInt(|p.topic|) + p.topic
      + ((if p.qos > 0 then WriteInt(p.id) else []) + (if v5 then Properties.WriteList(p.properties) else []))
      + p.payload
    else []
  }

  /** The buffers MQTTPacket_send_publish hands to MQTTPacket_sends. */
  function Buffers(v5: bool, p: Publish): (r: seq<seq<byte>>)
    requires Sendable(v5, p)
    ensures 3 <= |r| <= 4
  {
    if p.qos > 0 || v5 then
      [WriteInt(|p.topic|), p.topic,
       (if p.qos > 0 then WriteInt(p.id) else []) + (if v5 then Properties.WriteList(p.properties) else []),
       p.payload]
    else
      [WriteInt(|p.topic|), p.topic, p.payload]
  }

  function Concat(buffers: seq<seq<byte>>): (r: seq<byte>) {
    if |buffers| == 0 then [] else buffers[0] + Concat(buffers[1..])
  }

  function FixedHeader(h: byte, length: nat): (r: seq<byte>) {
    [h] + Vbi.Encode(length)
  }

  /** A whole packet: header byte, remaining length, and the rest. */
  function Frame(h: byte, body: seq<byte>): (r: seq<byte>)
    ensures |r| >= 2
  {
    FixedHeader(h, |body|) + body
  }

  function PublishBytes(v5: bool, p: Publish): (r: seq<byte>)
    requires Sendable(v5, p)
  {
    Frame(Header(PUBLISH, p.dup, p.qos, p.retain), Body(v5, p))
  }

  lemma ConcatCons(b: seq<byte>, bs: seq<seq<byte>>)
    ensures Concat([b] + bs) == b + Concat(bs)
  {
    assert ([b] + bs)[1..] == bs;
  }

  lemma BuffersAreTheBody(v5: bool, p: Publish)
    requires Sendable(v5, p)
    ensures Concat(Buffers(v5, p)) == Body(v5, p)
  {
    hide Properties.WriteList, Properties.ListOk, Concat;
    var bs := Buffers(v5, p);
    ConcatCons(p.payload, []);
    ConcatCons(p.topic, bs[2..]);
    ConcatCons(bs[0], bs[1..]);
    assert bs == [bs[0]] + bs[1..] && bs[1..] == [p.topic] + bs[2..];
    assert Concat([]) == [] by { EmptyConcat(); }
    if |bs| == 4 {
      ConcatCons(bs[2], bs[3..]);
      assert bs[2..] == [bs[2]] + bs[3..] && bs[3..] == [p.payload] + [];
    } else {
      assert bs[2..] == [p.payload] + [];
    }
  }

  lemma EmptyConcat()
    ensures Concat([]) == []
  {
  }

  /** The buffers written are, in order, exactly the packet. */
  lemma BuffersAreThePacket(v5: bool, p: Publish)
    requires Sendable(v5, p)
    ensures var h := Header(PUBLISH, p.dup, p.qos, p.retain);
      Concat([FixedHeader(h, |Concat(Buffers(v5, p))|)] + Buffers(v5, p)) == PublishBytes(v5, p)
  {
    hide Body, Buffers, Concat, FixedHeader;
    BuffersAreTheBody(v5, p);
    ConcatCons(FixedHeader(Header(PUBLISH, p.dup, p.qos, p.retain), |Concat(Buffers(v5, p))|), Buffers(v5, p));
  }

  /** The part of MQTTPacket_publish after the message id: properties in MQTT 5, then the payload. */
  function ParseTail(v5: bool, h: byte, topic: seq<byte>, id: int, data: seq<byte>): (r: Option<Publish>) {
    if !v5 then
      Some(Publish(HeaderDup(h), HeaderQos(h), HeaderRetain(h), topic, id, [], data))
    else
      var ps := Properties.ReadList(data);
      if ps.None? then None
      else Some(Publish(HeaderDup(h), HeaderQos(h), HeaderRetain(h), topic, id, ps.value.0, data[ps.value.1..]))
  }

  /** MQTTPacket_publish: None for input that does not hold the fields it announces. */
  function ParsePublish(v5: bool, h: byte, data: seq<byte>): (r: Option<Publish>) {
    var topic := Properties.ReadString(data);
    if topic.None? then None
    else
      var rest := data[topic.value.1..];
      if HeaderQos(h) == 0 then ParseTail(v5, h, topic.value.0, 0, rest)
      else if |rest| < 2 then None
      else ParseTail(v5, h, topic.value.0, ReadInt(rest), rest[2..])
  }

  lemma TailRoundTrip(v5: bool, p: Publish)
    requires Sendable(v5, p)
    ensures var props := if v5 then Properties.WriteList(p.properties) else [];
      ParseTail(v5, Header(PUBLISH, p.dup, p.qos, p.retain), p.topic, p.id, props + p.payload) == Some(p)
      <==> forall q :: q in p.properties ==> Properties.Faithful(q)
  {
    hide Properties.WriteList, Properties.ReadList, Properties.ListOk, Properties.ListLength, Properties.Faithful, Body;
    HeaderFields(PUBLISH, p.dup, p.qos, p.retain);
    hide Header, HeaderKind, HeaderDup, HeaderQos, HeaderRetain;
    if v5 {
      Properties.ListRoundTrip(p.properties, p.payload);
      var props := Properties.WriteList(p.properties);
      assert (props + p.payload)[|props|..] == p.payload;
    } else {
      assert [] + p.payload == p.payload;
    }
  }

  /** Parsing the body of a sent PUBLISH gives back flags, topic, id, properties and payload;
      for MQTT 5 exactly when its four-byte property values are ones writeInt4 can carry. */
  lemma PublishRoundTrip(v5: bool, p: Publish)
    requires Sendable(v5, p)
    ensures ParsePublish(v5, Header(PUBLISH, p.dup, p.qos, p.retain), Body(v5, p)) == Some(p)
            <==> forall q :: q in p.properties ==> Properties.Faithful(q)
  {
    hide Properties.WriteList, Properties.ListOk, Properties.Faithful, ParseTail;
    HeaderFields(PUBLISH, p.dup, p.qos, p.retain);
    hide Header, HeaderKind, HeaderDup, HeaderQos, HeaderRetain;
    TailRoundTrip(v5, p);
    var afterId := (if v5 then Properties.WriteList(p.properties) else []) + p.payload;
    var afterTopic := (if p.qos > 0 then WriteInt(p.id) else []) + afterId;
    assert Body(v5, p) == Properties.WriteString(p.topic) + afterTopic;
    Properties.ReadWriteString(p.topic, afterTopic);
    assert Body(v5, p)[2 + |p.topic|..] == afterTopic;
    if p.qos > 0 {
      ReadWriteInt(p.id, afterId);
    } else {
      assert afterTopic == afterId;
    }
  }

  /** MQTTPacket_send_ack, always in its MQTT 3.1.1 form. */
  function AckBytes(kind: int, dup: bool, id: int): (r: seq<byte>)
    requires PUBACK <= kind <= PUBCOMP && 0 <= id < 65536
  {
    Frame(Header(kind, dup, if kind == PUBREL then 1 else 0, false), WriteInt(id))
  }

  datatype Packet =
    | PublishPacket(publish: Publish)
    | AckPacket(kind: int, dup: bool, ackId: int)

  /** The parsers of the packet table that persisted records go through. */
  function ParseBody(v5: bool, h: byte, data: seq<byte>): (r: Option<Packet>) {
    var kind := HeaderKind(h);
    if kind == PUBLISH then
      var p := ParsePublish(v5, h, data);
      if p.None? then None else Some(PublishPacket(p.value))
    else if PUBACK <= kind <= PUBCOMP && |data| >= 2 then
      Some(AckPacket(kind, HeaderDup(h), ReadInt(data)))
    else None
  }

  /** MQTTPersistence_restorePacket: the record must be one whole packet. */
  function RestorePacket(v5: bool, buffer: seq<byte>): (r: Option<Packet>) {
    if |buffer| == 0 then None
    else
      var n := Vbi.Decode(buffer[1..], |buffer|);
      if n.None? || 1 + n.value.1 + n.value.0 != |buffer| then None
      else ParseBody(v5, buffer[0], buffer[1 + n.value.1..])
  }

  lemma RestoreFrame(v5: bool, h: byte, body: seq<byte>)
    ensures RestorePacket(v5, Frame(h, body)) == ParseBody(v5, h, body)
  {
    hide ParseBody;
    var f := Frame(h, body);
    assert f[1..] == Vbi.Encode(|body|) + body;
    Vbi.DecodeEncode(|body|, |f|, body);
    assert f[1 + |Vbi.Encode(|body|)|..] == body;
  }

  /** A persisted PUBLISH is restored as it was sent, exactly when its properties are faithful. */
  lemma RestorePublish(v5: bool, p: Publish)
    requires Sendable(v5, p)
    ensures RestorePacket(v5, PublishBytes(v5, p)) == Some(PublishPacket(p))
            <==> forall q :: q in p.properties ==> Properties.Faithful(q)
  {
    hide Body, ParsePublish;
    RestoreFrame(v5, Header(PUBLISH, p.dup, p.qos, p.retain), Body(v5, p));
    HeaderFields(PUBLISH, p.dup, p.qos, p.retain);
    PublishRoundTrip(v5, p);
  }

  /** So is an acknowledgement. */
  lemma RestoreAck(kind: int, dup: bool, id: int)
    requires PUBACK <= kind <= PUBCOMP && 0 <= id < 65536
    ensures RestorePacket(false, AckBytes(kind, dup, id)) == Some(AckPacket(kind, dup, id))
  {
    var qos := if kind == PUBREL then 1 else 0;
    RestoreFrame(false, Header(kind, dup, qos, false), WriteInt(id));
    HeaderFields(kind, dup, qos, false);
    ReadWriteInt(id, []);
    assert WriteInt(id) + [] == WriteInt(id);
  }
}
