/** The other end of the connection: what a server reads from the packets of the client, written down
    from the sections of MQTT 3.1.1 alone. */
module MqttServer {
  import opened MqttLength
  import opened MqttCodec
  import opened MqttRequests
  import opened Optional

  datatype Packet =
    | ConnectPacket(options: Options)
    | PublishPacket(dup: bool, qos: nat, retained: bool, topic: seq<byte>, publishId: Option<nat>, payload: seq<byte>)
    | AckPacket(kind: nat, id: nat)
    | SubscribePacket(id: nat, entries: seq<Entry>)
    | UnsubscribePacket(id: nat, entries: seq<Entry>)
    | Malformed

  /** Section 2.2.3: up to four bytes of seven bits, the least significant first, and what follows. */
  function ReadLength(s: seq<byte>): Option<(int, seq<byte>)> {
    if |s| >= 1 && s[0] < 128 then Some((Weighed(s[0], 0, 0, 0), s[1..]))
    else if |s| >= 2 && s[1] < 128 then Some((Weighed(s[0] - 128, s[1], 0, 0), s[2..]))
    else if |s| >= 3 && s[2] < 128 then Some((Weighed(s[0] - 128, s[1] - 128, s[2], 0), s[3..]))
    else if |s| >= 4 && s[3] < 128 then Some((Weighed(s[0] - 128, s[1] - 128, s[2] - 128, s[3]), s[4..]))
    else None
  }

  function Weighed(a: int, b: int, c: int, d: int): int { a + 128 * b + 16384 * c + 2097152 * d }

  /** Section 2.2: the type, the flags that it requires, and a body of the announced length. */
  function Receive(s: seq<byte>): Packet {
    if s == [] || ReadLength(s[1..]).None? || ReadLength(s[1..]).value.0 != |ReadLength(s[1..]).value.1| then Malformed
    else
      var kind, flags, body := s[0] / 16, s[0] % 16, ReadLength(s[1..]).value.1;
      if kind == 1 && flags == 0 then ReceiveConnect(body)
      else if kind == 3 then ReceivePublish(flags, body)
      else if (kind == 4 || kind == 5) && flags == 0 && |body| == 2 then AckPacket(kind, Number(body[0], body[1]))
      else if kind == 6 && flags == 2 && |body| == 2 then AckPacket(kind, Number(body[0], body[1]))
      else if kind == 8 && flags == 2 then ReceiveRequest(true, body)
      else if kind == 10 && flags == 2 then ReceiveRequest(false, body)
      else Malformed
  }

  /** Section 3.1. */
  function ReceiveConnect(body: seq<byte>): Packet {
    match ReadConnect(body)
    case None => Malformed
    case Some(o) => ConnectPacket(o)
  }

  /** Section 3.3: the topic, an id above QoS 0, and the rest is the payload. */
  function ReceivePublish(flags: nat, body: seq<byte>): Packet {
    var qos := flags / 2 % 4;
    match ReadString(body)
    case Bad => Malformed
    case Got(topic, rest) =>
      if qos == 3 || (qos > 0 && |rest| < 2) then Malformed
      else if qos == 0 then PublishPacket(flags / 8 == 1, 0, flags % 2 == 1, topic, None, rest)
      else PublishPacket(flags / 8 == 1, qos, flags % 2 == 1, topic, Some(Number(rest[0], rest[1])), rest[2..])
  }

  /** Sections 3.8 and 3.10: an id and at least one filter. */
  function ReceiveRequest(subscribe: bool, body: seq<byte>): Packet {
    if |body| < 2 then Malformed
    else
      match ReadEntries(body[2..], subscribe)
      case None => Malformed
      case Some(es) =>
        if es == [] then Malformed
        else if subscribe then SubscribePacket(Number(body[0], body[1]), es)
        else UnsubscribePacket(Number(body[0], body[1]), es)
  }

  // ----- what the client sends is read as it was meant -----

  /** The examples of table 2.4 of section 2.2.3. */
  lemma LengthExamples()
    ensures Encode(0) == [0x00] && Encode(127) == [0x7F] && Encode(128) == [0x80, 0x01]
    ensures Encode(16383) == [0xFF, 0x7F] && Encode(16384) == [0x80, 0x80, 0x01]
    ensures Encode(2097151) == [0xFF, 0xFF, 0x7F] && Encode(2097152) == [0x80, 0x80, 0x80, 0x01]
    ensures Encode(268435455) == [0xFF, 0xFF, 0xFF, 0x7F]
  {
  }

  lemma LengthReceived(n: nat, rest: seq<byte>)
    requires n <= MAX_REMAINING_LENGTH
    ensures ReadLength(Encode(n) + rest) == Some((n, rest))
  {
    hide Encode, ReadLength, Weighed;
    var a := n / 128;
    var b := a / 128;
    var c := b / 128;
    Places(n, a, b, c);
    OneDigit(n);
    OneDigit(a);
    if n < 128 {
      ReadsOne(n, rest);
    } else if a < 128 {
      ReadsTwo(n % 128 + 128, a, rest);
      assert Encode(n) == [n % 128 + 128, a];
    } else {
      OneDigit(b);
      if b < 128 {
        ReadsThree(n % 128 + 128, a % 128 + 128, b, rest);
        assert Encode(n) == [n % 128 + 128, a % 128 + 128, b];
      } else {
        OneDigit(c);
        ReadsFour(n % 128 + 128, a % 128 + 128, b % 128 + 128, c, rest);
        assert Encode(n) == [n % 128 + 128, a % 128 + 128, b % 128 + 128, c];
      }
    }
  }

  lemma OneDigit(n: nat)
    ensures Encode(n) == if n < 128 then [n] else [n % 128 + 128] + Encode(n / 128)
  {
  }

  lemma Places(n: nat, a: nat, b: nat, c: nat)
    requires a == n / 128 && b == a / 128 && c == b / 128 && n <= MAX_REMAINING_LENGTH
    ensures c < 128 && n == Weighed(n % 128, a % 128, b % 128, c) && (b < 128 ==> b % 128 == b && c == 0)
    ensures (a < 128 ==> a % 128 == a && b == 0) && (n < 128 ==> a == 0)
  {
    assert n == n % 128 + 128 * a && a == a % 128 + 128 * b && b == b % 128 + 128 * c;
  }

  lemma ReadsOne(a: byte, rest: seq<byte>)
    requires a < 128
    ensures ReadLength([a] + rest) == Some((Weighed(a, 0, 0, 0), rest))
  {
  }

  lemma ReadsTwo(a: byte, b: byte, rest: seq<byte>)
    requires a >= 128 > b
    ensures ReadLength([a, b] + rest) == Some((Weighed(a - 128, b, 0, 0), rest))
  {
  }

  lemma ReadsThree(a: byte, b: byte, c: byte, rest: seq<byte>)
    requires a >= 128 > c && b >= 128
    ensures ReadLength([a, b, c] + rest) == Some((Weighed(a - 128, b - 128, c, 0), rest))
  {
  }

  lemma ReadsFour(a: byte, b: byte, c: byte, d: byte, rest: seq<byte>)
    requires a >= 128 > d && b >= 128 && c >= 128
    ensures ReadLength([a, b, c, d] + rest) == Some((Weighed(a - 128, b - 128, c - 128, d), rest))
  {
  }

  /** The fixed header is read, and the body handed on. */
  lemma FixedReceived(header: byte, body: seq<byte>)
    requires |body| <= MAX_REMAINING_LENGTH
    ensures var s := Fixed(header, body); s != [] && s[0] == header && ReadLength(s[1..]) == Some((|body|, body))
  {
    hide Encode, ReadLength;
    LengthReceived(|body|, body);
    assert Fixed(header, body)[1..] == Encode(|body|) + body;
  }

  /** A PUBLISH: every field, whatever the payload. */
  lemma PublishReceived(p: Publish)
    requires ValidPublish(p) && |p.topic| < TWO_16
    ensures Receive(PublishBytes(p))
            == PublishPacket(p.dup % 2 == 1, p.qos, p.retained % 2 == 1, p.topic,
                             if p.qos > 0 then Some(p.id) else None, p.payload)
  {
    hide Encode, ReadLength, ReadString, U16, Utf8, Fixed, HeaderByte, ReceivePublish;
    var body := PublishBody(p);
    var flags := 8 * (p.dup % 2) + 2 * p.qos + p.retained % 2;
    PublishHeader(p.qos, p.dup, p.retained);
    FixedReceived(HeaderByte(PUBLISH, p.qos, p.dup, p.retained), body);
    BodyReceived(p, flags);
  }

  lemma PublishHeader(qos: nat, dup: byte, retained: byte)
    requires qos <= 2
    ensures var h, flags := HeaderByte(PUBLISH, qos, dup, retained), 8 * (dup % 2) + 2 * qos + retained % 2;
            && h / 16 == 3 && h % 16 == flags
            && flags / 8 == dup % 2 && flags / 2 % 4 == qos && flags % 2 == retained % 2
  {
    var d, r := dup % 2, retained % 2;
    HeaderFields(3, qos, d, r);
    assert 8 * d + 2 * qos + r == 8 * d + (2 * qos + r) && 2 * qos + r < 8;
    assert 8 * d + 2 * qos + r == 2 * (4 * d + qos) + r;
  }

  lemma BodyReceived(p: Publish, flags: nat)
    requires p.qos <= 2 && |p.topic| < TWO_16
    requires flags / 8 == p.dup % 2 && flags / 2 % 4 == p.qos && flags % 2 == p.retained % 2
    ensures ReceivePublish(flags, PublishBody(p))
            == PublishPacket(p.dup % 2 == 1, p.qos, p.retained % 2 == 1, p.topic,
                             if p.qos > 0 then Some(p.id) else None, p.payload)
  {
    hide ReadString, U16, Utf8;
    var rest := (if p.qos > 0 then U16(p.id) else []) + p.payload;
    StringRoundTrip(p.topic, rest);
    assert PublishBody(p) == Utf8(p.topic) + rest;
    if p.qos > 0 {
      NumberRoundTrip(p.id);
      assert rest[0] == U16(p.id)[0] && rest[1] == U16(p.id)[1] && rest[2..] == p.payload;
    } else {
      assert rest == p.payload;
    }
  }

  /** PUBACK, PUBREC and PUBREL: if and only if the dup flag is not set. */
  lemma AckReceivedExactly(kind: nat, dup: byte, id: uint16)
    requires kind == PUBACK || kind == PUBREC || kind == PUBREL
    ensures Receive(AckBytes(kind, dup, id)) == if dup % 2 == 0 then AckPacket(kind, id) else Malformed
    ensures PUBACK == 4 && PUBREC == 5 && PUBREL == 6
  {
    hide Encode, ReadLength, U16, Fixed;
    FixedReceived(HeaderByte(kind, if kind == PUBREL then 1 else 0, dup, 0), U16(id));
    NumberRoundTrip(id);
  }

  /** SUBSCRIBE and UNSUBSCRIBE: the kind of request, its id and its filters, in order. */
  lemma RequestReceivedExactly(subscribe: bool, dup: byte, id: uint16, es: seq<Entry>)
    requires es != [] && Readable(es, subscribe) && |RequestBody(id, es)| <= MAX_REMAINING_LENGTH
    ensures Receive(Fixed(RequestHeader(subscribe, dup), RequestBody(id, es)))
            == if dup % 2 == 1 then Malformed
               else if subscribe then SubscribePacket(id, es) else UnsubscribePacket(id, es)
  {
    hide Encode, ReadLength, ReadEntries, U16, Fixed, EntriesBytes;
    var body := RequestBody(id, es);
    FixedReceived(RequestHeader(subscribe, dup), body);
    NumberRoundTrip(id);
    EntriesRoundTrip(es, subscribe);
    assert body[0] == U16(id)[0] && body[1] == U16(id)[1] && body[2..] == EntriesBytes(es);
  }

  /** CONNECT: if and only if there are a user name and a password. */
  lemma ConnectReceivedExactly(o: Options)
    requires Sendable(o) && (o.version == 3 || o.version == 4) && ConnectRemLen(o) <= MAX_REMAINING_LENGTH
    ensures Receive(Fixed(HeaderByte(CONNECT, 0, 0, 0), ConnectBody(o)))
            == if o.username.Some? && o.password.Some? then ConnectPacket(o) else Malformed
  {
    hide Encode, ReadLength, ReadConnect, ConnectBody, Fixed;
    ConnectLenExactly(o);
    FixedReceived(HeaderByte(CONNECT, 0, 0, 0), ConnectBody(o));
    ConnectRoundTripExactly(o);
  }

  /** The first bytes, in figures. */
  lemma FirstBytes()
    ensures HeaderByte(CONNECT, 0, 0, 0) == 0x10 && RequestHeader(true, 0) == 0x82 && RequestHeader(false, 0) == 0xA2
    ensures HeaderByte(PUBLISH, 0, 0, 0) == 0x30 && HeaderByte(PUBLISH, 1, 0, 0) == 0x32
  {
  }
}
