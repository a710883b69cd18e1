// The packet serialisers and deserialisers of uiot/mqtt/src (MQTT 3.1.1, section 3).
module MqttCodec {
  import opened MqttLength
  import opened Optional

  const UIOT_MQTT_RX_BUF_LEN := 2048
  const TWO_16 := 65536

  type uint16 = n: int | 0 <= n < TWO_16

  const CONNECT := 1
  const PUBLISH := 3
  const PUBACK := 4
  const PUBREC := 5
  const PUBREL := 6
  const SUBSCRIBE := 8
  const UNSUBSCRIBE := 10

  /** mqtt_init_packet_header: the four fields share no bit, so their masked shifts add up. */
  function HeaderByte(kind: nat, qos: nat, dup: byte, retained: byte): (h: byte)
    requires kind < 16 && qos < 4
    ensures h / 16 == kind && h / 8 % 2 == dup % 2 && h / 2 % 4 == qos && h % 2 == retained % 2
  {
    HeaderFields(kind, qos, dup % 2, retained % 2);
    16 * kind + 8 * (dup % 2) + 2 * qos + retained % 2
  }

  lemma HeaderFields(kind: nat, qos: nat, dup: nat, retained: nat)
    requires kind < 16 && qos < 4 && dup < 2 && retained < 2
    ensures var h := 16 * kind + 8 * dup + 2 * qos + retained;
            h / 16 == kind && h / 8 == 2 * kind + dup && h / 8 % 2 == dup && h / 2 == 8 * kind + 4 * dup + qos &&
              h / 2 % 4 == qos && h % 2 == retained
  {
    var h := 16 * kind + 8 * dup + 2 * qos + retained;
    assert h == 16 * kind + (8 * dup + 2 * qos + retained) && 0 <= 8 * dup + 2 * qos + retained < 16;
    assert h == 8 * (2 * kind + dup) + (2 * qos + retained) && 0 <= 2 * qos + retained < 8;
    assert h == 2 * (8 * kind + 4 * dup + qos) + retained;
  }

  /** The two bytes of the low 16 bits of a number, and the number they stand for. */
  function U16(n: nat): (s: seq<byte>)
    ensures |s| == 2
  {
    [n / 256 % 256, n % 256]
  }

  function FromU16(high: byte, low: byte): uint16 { low + 256 * high }

  lemma U16RoundTrip(n: nat)
    ensures FromU16(U16(n)[0], U16(n)[1]) == n % TWO_16
  {
    var q, r := n / TWO_16, n % TWO_16;
    assert n == 256 * (256 * q + r / 256) + r % 256;
    DivMod256(n, 256 * q + r / 256, r % 256);
    DivMod256(n / 256, q, r / 256);
  }

  lemma SameU16(n: nat)
    ensures U16(n % TWO_16) == U16(n)
  {
    var q, r := n / TWO_16, n % TWO_16;
    assert n == 256 * (256 * q + r / 256) + r % 256;
    DivMod256(n, 256 * q + r / 256, r % 256);
    DivMod256(n / 256, q, r / 256);
  }

  lemma DivMod256(n: nat, q: nat, r: nat)
    requires n == 256 * q + r && r < 256
    ensures n / 256 == q && n % 256 == r
  {
  }

  /** A length-delimited string. */
  function Utf8(s: seq<byte>): (e: seq<byte>)
    ensures |e| == 2 + |s|
  {
    U16(|s|) + s
  }

  /** Of `was`, just `body` has been written over, from `ptr` on. */
  ghost predicate Holds(now: seq<byte>, was: seq<byte>, ptr: nat, body: seq<byte>) {
    |now| == |was| && ptr + |body| <= |was| && now == was[..ptr] + body + was[ptr + |body|..]
  }

  lemma NothingWritten(was: seq<byte>, ptr: nat)
    requires ptr <= |was|
    ensures Holds(was, was, ptr, [])
  {
  }

  lemma Extend(was: seq<byte>, now: seq<byte>, now': seq<byte>, ptr: nat, body: seq<byte>, s: seq<byte>)
    requires Holds(now, was, ptr, body) && Holds(now', now, ptr + |body|, s)
    ensures Holds(now', was, ptr, body + s)
  {
    assert now[..ptr + |body|] == was[..ptr] + body;
    assert now[ptr + |body| + |s|..] == was[ptr + |body| + |s|..];
  }

  lemma Written(now: seq<byte>, was: seq<byte>, ptr: nat, body: seq<byte>)
    requires Holds(now, was, ptr, body)
    ensures |now| == |was| && ptr + |body| <= |was|
    ensures now[..ptr] == was[..ptr] && now[ptr..ptr + |body|] == body && now[ptr + |body|..] == was[ptr + |body|..]
    ensures now[..ptr + |body|] == was[..ptr] + body
  {
  }

  method WriteChar(buf: array<byte>, ptr: nat, c: byte) returns (ptr': nat)
    requires ptr < buf.Length
    modifies buf
    ensures ptr' == ptr + 1 && Holds(buf[..], old(buf[..]), ptr, [c])
  {
    buf[ptr] := c;
    ptr' := ptr + 1;
  }

  method WriteUint16(buf: array<byte>, ptr: nat, n: uint16) returns (ptr': nat)
    requires ptr + 2 <= buf.Length
    modifies buf
    ensures ptr' == ptr + 2 && Holds(buf[..], old(buf[..]), ptr, U16(n))
  {
    buf[ptr] := n / 256;
    buf[ptr + 1] := n % 256;
    ptr' := ptr + 2;
  }

  method WriteBytes(buf: array<byte>, ptr: nat, s: seq<byte>) returns (ptr': nat)
    requires ptr + |s| <= buf.Length
    modifies buf
    ensures ptr' == ptr + |s| && Holds(buf[..], old(buf[..]), ptr, s)
  {
    ghost var was := buf[..];
    for i := 0 to |s|
      invariant |buf[..]| == |was| &&
                forall k :: 0 <= k < |was| ==> buf[k] == if ptr <= k < ptr + i then s[k - ptr] else was[k]
    {
      buf[ptr + i] := s[i];
    }
    assert buf[..] == was[..ptr] + s + was[ptr + |s|..];
    ptr' := ptr + |s|;
  }

  /** The length is truncated to 16 bits, the string is written whole. */
  method WriteUtf8String(buf: array<byte>, ptr: nat, s: seq<byte>) returns (ptr': nat)
    requires ptr + 2 + |s| <= buf.Length
    modifies buf
    ensures ptr' == ptr + |Utf8(s)| && Holds(buf[..], old(buf[..]), ptr, Utf8(s))
  {
    SameU16(|s|);
    hide U16, Holds;
    ghost var was := buf[..];
    ptr' := WriteUint16(buf, ptr, |s| % TWO_16);
    ghost var now := buf[..];
    ptr' := WriteBytes(buf, ptr', s);
    Extend(was, now, buf[..], ptr, U16(|s|), s);
  }

  /** The fixed header: the first byte and the remaining length. */
  function Fixed(header: byte, body: seq<byte>): (packet: seq<byte>)
    ensures |packet| == 1 + |Encode(|body|)| + |body|
  {
    [header] + Encode(|body|) + body
  }

  /** The packet that is written, with the 32 bits that are kept of the announced length. */
  function Packet(header: byte, announced: nat, body: seq<byte>): (packet: seq<byte>)
    ensures |packet| == 1 + |Encode(announced % TWO_32)| + |body|
  {
    [header] + Encode(announced % TWO_32) + body
  }

  /** For a body that the standard allows it is the packet of the standard, and within the room that
      has been checked for. */
  lemma PacketIsFixed(header: byte, body: seq<byte>, bufLen: nat)
    requires |body| <= MAX_REMAINING_LENGTH && PacketLen(|body|) <= bufLen < TWO_32
    ensures Packet(header, |body|, body) == Fixed(header, body) && |Fixed(header, body)| == Size(|body|) <= bufLen
  {
    InsideExactly(|body|, bufLen);
    hide Encode;
  }

  method WriteFixed(buf: array<byte>, header: byte, remLen: nat) returns (ptr: nat)
    requires 1 + |Encode(remLen)| <= buf.Length
    modifies buf
    ensures ptr == 1 + |Encode(remLen)|
    ensures Holds(buf[..], old(buf[..]), 0, [header] + Encode(remLen))
  {
    hide Holds, Encode;
    ghost var was := buf[..];
    var after := WriteChar(buf, 0, header);
    ghost var now := buf[..];
    var n := WriteLength(buf, after, remLen);
    ptr := after + n;
    Extend(was, now, buf[..], 0, [header], Encode(remLen));
  }

  method WriteLength(buf: array<byte>, at: nat, length: nat) returns (n: nat)
    requires at + |Encode(length)| <= buf.Length
    modifies buf
    ensures n == |Encode(length)| && Holds(buf[..], old(buf[..]), at, Encode(length))
  {
    hide Encode;
    n := WriteRemLen(buf, at, length);
    assert buf[..] == buf[..at + n] + buf[at + n..];
  }

  // ----- PUBLISH (section 3.3) -----

  datatype Publish = Publish(dup: byte, qos: nat, retained: byte, id: uint16, topic: seq<byte>, payload: seq<byte>)

  predicate ValidPublish(p: Publish) { p.qos <= 2 && PublishRemLen(p) <= MAX_REMAINING_LENGTH }

  function PublishRemLen(p: Publish): nat {
    2 + |p.topic| + |p.payload| + (if p.qos > 0 then 2 else 0)
  }

  function PublishBody(p: Publish): (body: seq<byte>)
    ensures |body| == PublishRemLen(p)
  {
    Utf8(p.topic) + (if p.qos > 0 then U16(p.id) else []) + p.payload
  }

  function PublishBytes(p: Publish): seq<byte>
    requires p.qos <= 2
  {
    Fixed(HeaderByte(PUBLISH, p.qos, p.dup, p.retained), PublishBody(p))
  }

  /** _serialize_publish_packet: the packet, if the computed room is there in the `bufLen` bytes of the
      buffer, and nothing written outside it. `buf` is the memory from the front of the buffer on; of
      the length 32 bits are kept, so that a packet can be longer than the room checked for. */
  method SerializePublish(buf: array<byte>, bufLen: nat, p: Publish) returns (ret: int, len: nat)
    requires p.qos <= 2 && bufLen < TWO_32
    requires PacketLen(PublishRemLen(p)) <= bufLen ==> Size(PublishRemLen(p)) <= buf.Length
    modifies buf
    ensures ret == (if PacketLen(PublishRemLen(p)) > bufLen then ERR_MQTT_BUFFER_TOO_SHORT else SUCCESS_RET)
    ensures ret != SUCCESS_RET ==> buf[..] == old(buf[..])
    ensures ret == SUCCESS_RET ==>
              var packet := Packet(HeaderByte(PUBLISH, p.qos, p.dup, p.retained), PublishRemLen(p), PublishBody(p));
              && len == |packet| == Size(PublishRemLen(p)) && Holds(buf[..], old(buf[..]), 0, packet)
              && (ValidPublish(p) ==> packet == PublishBytes(p) && len <= bufLen)
  {
    len := 0;
    var remLen := PublishRemLen(p) % TWO_32;
    SameRoom(PublishRemLen(p));
    if PacketLen(remLen) > bufLen {
      return ERR_MQTT_BUFFER_TOO_SHORT, len;
    }
    hide PacketLen, HeaderByte, Encode, Holds, PublishBody;
    ghost var was := buf[..];
    var header := HeaderByte(PUBLISH, p.qos, p.dup, p.retained);
    if ValidPublish(p) {
      PacketIsFixed(header, PublishBody(p), bufLen);
    }
    len := WriteFixed(buf, header, remLen);
    ghost var now := buf[..];
    len := WritePublishBody(buf, len, p);
    Extend(was, now, buf[..], 0, [header] + Encode(remLen), PublishBody(p));
    ret := SUCCESS_RET;
  }

  lemma SameRoom(n: nat)
    ensures PacketLen(n % TWO_32) == PacketLen(n)
  {
    assert (n % TWO_32 + 1) % TWO_32 == (n + 1) % TWO_32;
  }

  method WritePublishBody(buf: array<byte>, ptr: nat, p: Publish) returns (len: nat)
    requires ptr + PublishRemLen(p) <= buf.Length
    modifies buf
    ensures len == ptr + |PublishBody(p)| && Holds(buf[..], old(buf[..]), ptr, PublishBody(p))
  {
    hide U16, Utf8, Holds;
    ghost var was := buf[..];
    len := WriteUtf8String(buf, ptr, p.topic);
    ghost var body, now, id: seq<byte> := Utf8(p.topic), buf[..], [];
    NothingWritten(now, len);
    if p.qos > 0 {
      len := WriteUint16(buf, len, p.id);
      id := U16(p.id);
    }
    Extend(was, now, buf[..], ptr, body, id);
    body, now := body + id, buf[..];
    len := WriteBytes(buf, len, p.payload);
    Extend(was, now, buf[..], ptr, body, p.payload);
  }

  /** What the deserialiser returns: the payload is a place in the buffer and a size_t. */
  datatype Parsed =
    | Parsed(dup: byte, qos: nat, retained: byte, id: Option<uint16>, topic: seq<byte>, at: nat, size: nat)
    | Error(code: int)

  /** A buffer read anywhere; behind its last byte there are zeros. */
  function At(buf: seq<byte>, i: nat): byte { if i < |buf| then buf[i] else 0 }

  function Bytes(buf: seq<byte>, from: nat, n: nat): (s: seq<byte>)
    ensures |s| == n && (from + n <= |buf| ==> s == buf[from..from + n])
  {
    if from + n <= |buf| then buf[from..from + n] else seq<byte>(n, i requires 0 <= i < n => At(buf, from + i))
  }

  lemma BytesAfter(buf: seq<byte>, at: nat, from: nat, n: nat)
    requires at <= |buf|
    ensures Bytes(buf[at..], from, n) == Bytes(buf, at + from, n)
  {
    var s, t := Bytes(buf[at..], from, n), Bytes(buf, at + from, n);
    forall i | 0 <= i < n
      ensures s[i] == t[i]
    {
      assert s[i] == At(buf[at..], from + i) && t[i] == At(buf, at + from + i);
    }
  }

  /** The fixed header of what stands in the buffer: first byte, start of the body, its length. */
  datatype Frame = Frame(header: byte, at: nat, size: nat) | BadFrame(code: int)

  function FrameOf(buf: seq<byte>, bufLen: nat): (f: Frame)
    requires |buf| > 0
  {
    if bufLen < 4 then BadFrame(ERR_MQTT_BUFFER_TOO_SHORT)
    else match Decode(buf[1..], MAX_NO_OF_REMAINING_LENGTH_BYTES)
      case Decoded(value, used) => Frame(buf[0], 1 + used, value)
      case TooLong => BadFrame(ERR_MQTT_PACKET_READ_ERROR)
      case Short => BadFrame(FAILURE_RET)
  }

  /** What a buffer holds as a PUBLISH packet. */
  function ParsePublish(buf: seq<byte>, bufLen: nat): Parsed
    requires |buf| > 0
  {
    var f := FrameOf(buf, bufLen);
    if bufLen < 4 then Error(ERR_MQTT_BUFFER_TOO_SHORT)
    else if buf[0] / 16 != PUBLISH then Error(FAILURE_RET)
    else if f.BadFrame? then Error(f.code)
    else ParseBody(buf[0], buf[f.at..], f.at, f.size)
  }

  /** The body, of which `size` bytes are announced, stands at the front of `rest`, `at` bytes into
      the buffer. */
  function ParseBody(header: byte, rest: seq<byte>, at: nat, size: nat): Parsed {
    var n := FromU16(At(rest, 0), At(rest, 1));
    if size < 2 || n > UIOT_MQTT_RX_BUF_LEN || 2 + n > size then Error(FAILURE_RET)
    else
      var cur, qos := 2 + n, header / 2 % 4;
      var id := if qos == 0 then None else Some(FromU16(At(rest, cur), At(rest, cur + 1)));
      var payload := if qos == 0 then cur else cur + 2;
      Parsed(header / 8 % 2, qos, header % 2, id, Bytes(rest, 2, n), at + payload, (size - payload) % TWO_32)
  }

  method DeserializePublish(buf: seq<byte>, bufLen: nat) returns (r: Parsed)
    requires |buf| > 0
    ensures r == ParsePublish(buf, bufLen)
  {
    hide HeaderByte, FromU16, Decode, Bytes;
    if bufLen < 4 {
      return Error(ERR_MQTT_BUFFER_TOO_SHORT);
    }
    var header, curdata := buf[0], 1;
    if header / 16 != PUBLISH {
      return Error(FAILURE_RET);
    }
    var ret, decodedLen, readBytesLen := ReadRemLen(buf, curdata);
    if ret != SUCCESS_RET {
      return Error(ret);
    }
    curdata := curdata + readBytesLen;
    var enddata := curdata + decodedLen;
    ghost var topicAt := curdata;
    if enddata - curdata <= 1 {
      return Error(FAILURE_RET);
    }
    var stringLen := FromU16(At(buf, curdata), At(buf, curdata + 1));
    curdata := curdata + 2;
    if stringLen > UIOT_MQTT_RX_BUF_LEN || curdata + stringLen > enddata {
      return Error(FAILURE_RET);
    }
    var topic := Bytes(buf, curdata, stringLen);
    BytesAfter(buf, topicAt, 2, stringLen);
    assert forall i :: 0 <= i ==> At(buf, topicAt + i) == At(buf[topicAt..], i);
    curdata := curdata + stringLen;
    var qos := header / 2 % 4;
    var id := None;
    if qos != 0 {
      id := Some(FromU16(At(buf, curdata), At(buf, curdata + 1)));
      curdata := curdata + 2;
    }
    r := Parsed(header / 8 % 2, qos, header % 2, id, topic, curdata, (enddata - curdata) % TWO_32);
  }

  /** The frame of a packet is found again, whatever stands behind it. */
  lemma FrameRoundTrip(header: byte, body: seq<byte>, tail: seq<byte>, bufLen: nat)
    requires |body| <= MAX_REMAINING_LENGTH && bufLen >= 4
    ensures FrameOf(Fixed(header, body) + tail, bufLen) == Frame(header, 1 + |Encode(|body|)|, |body|)
    ensures (Fixed(header, body) + tail)[1 + |Encode(|body|)|..] == body + tail
  {
    var buf := Fixed(header, body) + tail;
    assert buf[1..] == Encode(|body|) + (body + tail);
    FourBytesExactly(|body|, body + tail);
  }

  /** The fields of a PUBLISH are found again. */
  ghost predicate SameFields(p: Publish, r: Parsed, start: nat, body: seq<byte>) {
    && r.Parsed? && r.topic == p.topic && r.qos == p.qos && r.dup == p.dup % 2 && r.retained == p.retained % 2
    && r.id == (if p.qos > 0 then Some(p.id) else None)
    && start <= r.at && r.at - start + r.size <= |body| && body[r.at - start..r.at - start + r.size] == p.payload
  }

  /** Section 3.3: deserialising a serialised PUBLISH returns its fields, the packet id just for
      QoS 1 and 2, exactly when the topic is at most as long as the receive buffer. */
  lemma PublishRoundTripExactly(p: Publish, tail: seq<byte>, bufLen: nat)
    requires ValidPublish(p) && bufLen >= 4
    ensures SameFields(p, ParsePublish(PublishBytes(p) + tail, bufLen), 0, PublishBytes(p)) <==>
              |p.topic| <= UIOT_MQTT_RX_BUF_LEN
  {
    hide HeaderByte, Encode, ParseBody, FrameOf, Fixed, PublishBody;
    var body := PublishBody(p);
    var header := HeaderByte(PUBLISH, p.qos, p.dup, p.retained);
    var at := 1 + |Encode(|body|)|;
    FrameRoundTrip(header, body, tail, bufLen);
    FirstByte(header, body);
    assert (Fixed(header, body) + tail)[0] == header;
    BodyRoundTripExactly(p, header, tail, at);
    var r := ParseBody(header, body + tail, at, |body|);
    if |p.topic| <= UIOT_MQTT_RX_BUF_LEN {
      BodyIsTail(header, body);
      Slice(Fixed(header, body), at, r.at - at, r.at - at + r.size);
    }
  }

  lemma BodyIsTail(header: byte, body: seq<byte>)
    ensures Fixed(header, body)[1 + |Encode(|body|)|..] == body
  {
    hide Encode;
  }

  lemma BodyRoundTripExactly(p: Publish, header: byte, tail: seq<byte>, at: nat)
    requires ValidPublish(p) && header == HeaderByte(PUBLISH, p.qos, p.dup, p.retained)
    ensures var r := ParseBody(header, PublishBody(p) + tail, at, |PublishBody(p)|);
            if |p.topic| <= UIOT_MQTT_RX_BUF_LEN then SameFields(p, r, at, PublishBody(p))
              else r.Error? || r.topic != p.topic
  {
    hide HeaderByte, ParseBody, PublishBody, Bytes, FromU16;
    var body, n := PublishBody(p), |p.topic| % TWO_16;
    var rest := body + tail;
    TopicAtFront(p, tail);
    ParsesBody(header, rest, at, |body|);
    if |p.topic| <= UIOT_MQTT_RX_BUF_LEN {
      Remains(|p.topic|, |p.payload|);
      RestBehindTopic(p, tail);
      TopicFound(p, tail);
      assert ParseBody(header, rest, at, |body|).size == |p.payload|;
    } else {
      assert n <= UIOT_MQTT_RX_BUF_LEN ==> n != |p.topic|;
    }
  }

  lemma Remains(topicLen: nat, payloadLen: nat)
    ensures topicLen < TWO_16 ==> topicLen % TWO_16 == topicLen
    ensures payloadLen < TWO_32 ==> payloadLen % TWO_32 == payloadLen
  {
  }

  /** The parts of what is parsed. */
  lemma ParsesBody(header: byte, rest: seq<byte>, at: nat, size: nat)
    ensures var n, r := FromU16(At(rest, 0), At(rest, 1)), ParseBody(header, rest, at, size);
            && (r.Error? <==> size < 2 || n > UIOT_MQTT_RX_BUF_LEN || 2 + n > size)
            && (r.Parsed? ==>
                  var cur, qos := 2 + n, header / 2 % 4;
                  && |r.topic| == n && r.topic == Bytes(rest, 2, n)
                  && r.dup == header / 8 % 2 && r.qos == qos && r.retained == header % 2
                  && r.id == (if qos == 0 then None else Some(FromU16(At(rest, cur), At(rest, cur + 1))))
                  && r.at == at + cur + (if qos == 0 then 0 else 2)
                  && r.size == (size - cur - (if qos == 0 then 0 else 2)) % TWO_32)
  {
    hide FromU16;
  }

  lemma TopicAtFront(p: Publish, tail: seq<byte>)
    ensures var rest := PublishBody(p) + tail; FromU16(At(rest, 0), At(rest, 1)) == |p.topic| % TWO_16
  {
    hide U16, FromU16;
    var rest := PublishBody(p) + tail;
    assert At(rest, 0) == U16(|p.topic|)[0] && At(rest, 1) == U16(|p.topic|)[1];
    U16RoundTrip(|p.topic|);
  }

  lemma TopicFound(p: Publish, tail: seq<byte>)
    ensures Bytes(PublishBody(p) + tail, 2, |p.topic|) == p.topic
  {
    hide U16;
    assert (PublishBody(p) + tail)[2..2 + |p.topic|] == p.topic;
  }

  lemma RestBehindTopic(p: Publish, tail: seq<byte>)
    ensures var body := PublishBody(p);
            var rest, cur := body + tail, 2 + |p.topic|;
            if p.qos > 0 then FromU16(At(rest, cur), At(rest, cur + 1)) == p.id && body[cur + 2..] == p.payload
              else body[cur..] == p.payload
  {
    hide U16, FromU16;
    var rest, cur := PublishBody(p) + tail, 2 + |p.topic|;
    if p.qos > 0 {
      assert At(rest, cur) == U16(p.id)[0] && At(rest, cur + 1) == U16(p.id)[1];
      U16RoundTrip(p.id);
    }
  }

  /** The fields found, as a packet to send. */
  function Found(r: Parsed, payload: seq<byte>): Publish
    requires r.Parsed?
  {
    Publish(r.dup, r.qos, r.retained, if r.id.Some? then r.id.value else 0, r.topic, payload)
  }

  /** The way back: serialising what was found in a complete packet gives the packet again, exactly
      when its remaining length was written in the shortest way. */
  lemma ReserialisedExactly(buf: seq<byte>, bufLen: nat)
    requires |buf| > 0 && ParsePublish(buf, bufLen).Parsed?
    requires var f, r := FrameOf(buf, bufLen), ParsePublish(buf, bufLen);
             f.Frame? && f.at + f.size <= |buf| && r.at <= f.at + f.size && r.qos <= 2
    ensures var f, r := FrameOf(buf, bufLen), ParsePublish(buf, bufLen);
            var p := Found(r, buf[r.at..f.at + f.size]);
            PublishBytes(p) == buf[..f.at + f.size] <==> Encode(f.size) == buf[1..f.at]
  {
    hide Encode, ParseBody, HeaderByte, PublishBody;
    var f, r := FrameOf(buf, bufLen), ParsePublish(buf, bufLen);
    var p := Found(r, buf[r.at..f.at + f.size]);
    var body := buf[f.at..f.at + f.size];
    BodyAgain(buf[0], buf[f.at..], f.at, f.size);
    Slice(buf, f.at, r.at - f.at, f.size);
    Slice(buf, f.at, 0, f.size);
    hide *;
    assert buf[..f.at + f.size] == [buf[0]] + buf[1..f.at] + body;
    assert PublishBytes(p) == [buf[0]] + Encode(f.size) + body by { SerialisedParts(p); }
    SameMiddle(buf[0], Encode(f.size), buf[1..f.at], body);
  }

  lemma Slice(buf: seq<byte>, at: nat, i: nat, j: nat)
    requires i <= j && at + j <= |buf|
    ensures buf[at..][i..j] == buf[at + i..at + j]
  {
  }

  lemma SerialisedParts(p: Publish)
    requires p.qos <= 2
    ensures PublishBytes(p)
              == [HeaderByte(PUBLISH, p.qos, p.dup, p.retained)] + Encode(|PublishBody(p)|) + PublishBody(p)
  {
    hide Encode;
  }

  lemma SameMiddle(x: byte, a: seq<byte>, b: seq<byte>, z: seq<byte>)
    ensures [x] + a + z == [x] + b + z <==> a == b
  {
    if [x] + a + z == [x] + b + z {
      assert ([x] + a + z)[1..1 + |a|] == a && ([x] + b + z)[1..1 + |b|] == b;
    }
  }

  lemma BodyAgain(header: byte, rest: seq<byte>, at: nat, size: nat)
    requires ParseBody(header, rest, at, size).Parsed? && size <= |rest| && header / 16 == PUBLISH
    requires var r := ParseBody(header, rest, at, size); r.at <= at + size && r.qos <= 2
    ensures var r := ParseBody(header, rest, at, size);
            var p := Found(r, rest[r.at - at..size]);
            r.at >= at && HeaderByte(PUBLISH, p.qos, p.dup, p.retained) == header && PublishBody(p) == rest[..size]
  {
    hide U16, FromU16, ParseBody, HeaderByte, PublishBody, Bytes;
    ParsesBody(header, rest, at, size);
    var r := ParseBody(header, rest, at, size);
    var p := Found(r, rest[r.at - at..size]);
    HeaderAgain(header);
    TopicAgain(rest, |r.topic|);
    IdAgain(rest, p, size);
  }

  lemma HeaderAgain(header: byte)
    requires header / 16 == PUBLISH && header / 2 % 4 <= 2
    ensures HeaderByte(PUBLISH, header / 2 % 4, header / 8 % 2, header % 2) == header
  {
  }

  lemma TopicAgain(rest: seq<byte>, n: nat)
    requires 2 + n <= |rest| && n == FromU16(rest[0], rest[1])
    ensures Bytes(rest, 2, n) == rest[2..2 + n] && Utf8(rest[2..2 + n]) == rest[..2 + n]
  {
    U16Again(rest[0], rest[1]);
    assert rest[..2 + n] == [rest[0], rest[1]] + rest[2..2 + n];
  }

  /** Behind the topic come the id, if there is one, and the payload. */
  lemma IdAgain(rest: seq<byte>, p: Publish, size: nat)
    requires var cur := 2 + |p.topic|;
             && cur + (if p.qos > 0 then 2 else 0) <= size <= |rest| && Utf8(p.topic) == rest[..cur]
             && (p.qos > 0 ==> p.id == FromU16(rest[cur], rest[cur + 1])) &&
                p.payload == rest[cur + (if p.qos > 0 then 2 else 0)..size]
    ensures PublishBody(p) == rest[..size]
  {
    hide U16, FromU16, Utf8;
    var cur := 2 + |p.topic|;
    if p.qos > 0 {
      U16Again(rest[cur], rest[cur + 1]);
      assert rest[..size] == rest[..cur] + [rest[cur], rest[cur + 1]] + rest[cur + 2..size];
    } else {
      assert rest[..size] == rest[..cur] + [] + rest[cur..size];
    }
  }

  lemma U16Again(high: byte, low: byte)
    ensures U16(FromU16(high, low)) == [high, low]
  {
  }

  // ----- PUBACK, PUBREC, PUBREL and the acknowledgements read (section 3.4) -----

  function AckBytes(kind: nat, dup: byte, id: uint16): seq<byte>
    requires kind < 16
  {
    Fixed(HeaderByte(kind, if kind == PUBREL then 1 else 0, dup, 0), U16(id))
  }

  /** serialize_pub_ack_packet */
  method SerializeAck(buf: array<byte>, kind: nat, dup: byte, id: uint16) returns (ret: int, len: nat)
    requires 0 < kind < 15
    modifies buf
    ensures ret == (if buf.Length < 4 then ERR_MQTT_BUFFER_TOO_SHORT else SUCCESS_RET)
    ensures ret == SUCCESS_RET ==>
              len == 4 == |AckBytes(kind, dup, id)| && Holds(buf[..], old(buf[..]), 0, AckBytes(kind, dup, id))
    ensures ret != SUCCESS_RET ==> buf[..] == old(buf[..])
  {
    hide HeaderByte, U16, Holds;
    if buf.Length < 4 {
      return ERR_MQTT_BUFFER_TOO_SHORT, 0;
    }
    ghost var was := buf[..];
    var header := HeaderByte(kind, if kind == PUBREL then 1 else 0, dup, 0);
    assert Encode(2) == [2];
    len := WriteFixed(buf, header, 2);
    ghost var now := buf[..];
    len := WriteUint16(buf, len, id);
    Extend(was, now, buf[..], 0, [header] + Encode(2), U16(id));
    ret := SUCCESS_RET;
  }

  datatype Ack = Ack(kind: nat, dup: nat, id: uint16) | AckError(code: int)

  /** What a buffer holds as an acknowledgement; a third body byte is a return code, and has to be
      zero. */
  function ParseAck(buf: seq<byte>, bufLen: nat): Ack
    requires |buf| > 0
  {
    var f := FrameOf(buf, bufLen);
    if f.BadFrame? then AckError(f.code)
    else if f.size < 2 || (f.size >= 3 && At(buf, f.at + 2) != 0) then AckError(FAILURE_RET)
    else Ack(buf[0] / 16, buf[0] / 8 % 2, FromU16(At(buf, f.at), At(buf, f.at + 1)))
  }

  method DeserializeAck(buf: seq<byte>, bufLen: nat) returns (r: Ack)
    requires |buf| > 0
    ensures r == ParseAck(buf, bufLen)
  {
    hide FromU16, Decode;
    if bufLen < 4 {
      return AckError(ERR_MQTT_BUFFER_TOO_SHORT);
    }
    var header, curdata := buf[0], 1;
    var ret, decodedLen, readBytesLen := ReadRemLen(buf, curdata);
    if ret != SUCCESS_RET {
      return AckError(ret);
    }
    curdata := curdata + readBytesLen;
    var enddata := curdata + decodedLen;
    if enddata - curdata < 2 {
      return AckError(FAILURE_RET);
    }
    var id := FromU16(At(buf, curdata), At(buf, curdata + 1));
    curdata := curdata + 2;
    if enddata - curdata >= 1 {
      var ackCode := At(buf, curdata);
      if ackCode != 0 {
        return AckError(FAILURE_RET);
      }
    }
    r := Ack(header / 16, header / 8 % 2, id);
  }

  /** An acknowledgement with any further body is read as sent unless the body starts with a
      return code other than zero. */
  lemma AckRoundTripExactly(kind: nat, dup: byte, id: uint16, more: seq<byte>, tail: seq<byte>, bufLen: nat)
    requires 0 < kind < 15 && bufLen >= 4 && 2 + |more| <= MAX_REMAINING_LENGTH
    ensures var header := HeaderByte(kind, if kind == PUBREL then 1 else 0, dup, 0);
            ParseAck(Fixed(header, U16(id) + more) + tail, bufLen)
            == if more == [] || more[0] == 0 then Ack(kind, dup % 2, id) else AckError(FAILURE_RET)
  {
    hide HeaderByte, U16, FromU16, Encode, Fixed, FrameOf;
    var header := HeaderByte(kind, if kind == PUBREL then 1 else 0, dup, 0);
    var body := U16(id) + more;
    var buf, at := Fixed(header, body) + tail, 1 + |Encode(|body|)|;
    FrameRoundTrip(header, body, tail, bufLen);
    U16RoundTrip(id);
    assert Fixed(header, body)[0] == header by { FirstByte(header, body); }
    assert forall i :: 0 <= i < |body| ==> buf[at + i] == buf[at..][i] == body[i];
  }

  lemma FirstByte(header: byte, body: seq<byte>)
    ensures Fixed(header, body)[0] == header
  {
  }
}
