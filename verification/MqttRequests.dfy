// CONNECT, SUBSCRIBE and UNSUBSCRIBE of uiot/mqtt/src against a reader of the standard's formats
// (MQTT 3.1.1, sections 3.1, 3.8 and 3.10).
module MqttRequests {
  import opened MqttLength
  import opened MqttCodec
  import opened Optional

  /** What a reader takes off the front of a body. */
  datatype Read<T> = Got(value: T, rest: seq<byte>) | Bad

  /** Section 1.5.2: the most significant byte comes first. */
  function Number(msb: byte, lsb: byte): uint16 { 256 * msb + lsb }

  lemma NumberRoundTrip(n: nat)
    ensures Number(U16(n)[0], U16(n)[1]) == n % TWO_16
  {
    U16RoundTrip(n);
  }

  function ReadString(s: seq<byte>): Read<seq<byte>> {
    if |s| < 2 || 2 + Number(s[0], s[1]) > |s| then Bad
    else var n := Number(s[0], s[1]); Got(s[2..2 + n], s[2 + n..])
  }

  lemma StringRoundTrip(x: seq<byte>, rest: seq<byte>)
    requires |x| < TWO_16
    ensures ReadString(Utf8(x) + rest) == Got(x, rest)
  {
    hide U16;
    var s := Utf8(x) + rest;
    NumberRoundTrip(|x|);
    assert s[0] == U16(|x|)[0] && s[1] == U16(|x|)[1];
    assert s[2..2 + |x|] == x && s[2 + |x|..] == rest;
  }

  // ----- CONNECT (section 3.1) -----

  const MQTT: seq<byte> := [77, 81, 84, 84]
  const MQISDP: seq<byte> := [77, 81, 73, 115, 100, 112]

  const ERR_PARAM_INVALID := -2

  datatype Options = Options(version: int, clientId: seq<byte>, username: Option<seq<byte>>,
                             password: Option<seq<byte>>,
                             keepAlive: uint16, cleanSession: bool)

  /** Strings whose length has 16 bits. */
  predicate Sendable(o: Options) {
    |o.clientId| < TWO_16 && (o.username.Some? ==> |o.username.value| < TWO_16) &&
      (o.password.Some? ==> |o.password.value| < TWO_16)
  }

  function OptionalLen(s: Option<seq<byte>>): nat { if s.Some? then |s.value| + 2 else 0 }

  /** _get_packet_connect_rem_len */
  function ConnectRemLen(o: Options): nat {
    (if o.version == 3 then 12 else if o.version == 4 then 10 else 0) + |o.clientId| + 2 + OptionalLen(o.username)
    + OptionalLen(o.password)
  }

  function Protocol(o: Options): (seq<byte>, byte) { if o.version == 4 then (MQTT, 4) else (MQISDP, 3) }

  /** The password flag is set whether there is a password or not. */
  function Flags(o: Options): (f: byte)
    ensures f / 128 == (if o.username.Some? then 1 else 0) && f / 64 % 2 == 1 &&
            f / 2 % 2 == (if o.cleanSession then 1 else 0)
  {
    (if o.cleanSession then 2 else 0) + (if o.username.Some? then 128 else 0) + 64
  }

  function OptionalUtf8(s: Option<seq<byte>>): (e: seq<byte>)
    ensures |e| == OptionalLen(s)
  {
    if s.Some? then Utf8(s.value) else []
  }

  function Payload(o: Options): seq<byte> {
    Utf8(o.clientId) + (OptionalUtf8(o.username) + OptionalUtf8(o.password))
  }

  function ConnectBody(o: Options): seq<byte> {
    Utf8(Protocol(o).0) + ([Protocol(o).1, Flags(o)] + U16(o.keepAlive) + Payload(o))
  }

  /** The computed length is the number of bytes written exactly for the two known versions. */
  lemma ConnectLenExactly(o: Options)
    ensures |ConnectBody(o)| == ConnectRemLen(o) <==> o.version == 3 || o.version == 4
    ensures o.version != 3 && o.version != 4 ==> |ConnectBody(o)| == ConnectRemLen(o) + 12
  {
  }

  /** _serialize_connect_packet into a buffer of `bufLen` bytes, with what lies behind it in memory.
      An empty client id is refused. For an unknown version twelve bytes more are written than have
      been checked for. */
  method SerializeConnect(buf: array<byte>, bufLen: nat, o: Options) returns (ret: int, len: nat)
    requires bufLen < TWO_32
    requires o.clientId != [] && PacketLen(ConnectRemLen(o)) <= bufLen ==> ConnectSize(o) <= buf.Length
    modifies buf
    ensures ret == (if o.clientId == [] then ERR_PARAM_INVALID
                    else if PacketLen(ConnectRemLen(o)) > bufLen then ERR_MQTT_BUFFER_TOO_SHORT
                    else SUCCESS_RET)
    ensures ret != SUCCESS_RET ==> buf[..] == old(buf[..])
    ensures ret == SUCCESS_RET ==>
              var packet := Packet(HeaderByte(CONNECT, 0, 0, 0), ConnectRemLen(o), ConnectBody(o));
              && len == |packet| == ConnectSize(o) && Holds(buf[..], old(buf[..]), 0, packet)
              && ((o.version == 3 || o.version == 4) && ConnectRemLen(o) <= MAX_REMAINING_LENGTH ==>
                    packet == Fixed(HeaderByte(CONNECT, 0, 0, 0), ConnectBody(o)) && len <= bufLen)
  {
    len := 0;
    if |o.clientId| == 0 {
      return ERR_PARAM_INVALID, len;
    }
    var remLen := ConnectRemLen(o) % TWO_32;
    SameRoom(ConnectRemLen(o));
    if PacketLen(remLen) > bufLen {
      return ERR_MQTT_BUFFER_TOO_SHORT, len;
    }
    ConnectLenExactly(o);
    hide PacketLen, HeaderByte, Encode, Holds, ConnectBody;
    ghost var was := buf[..];
    var header := HeaderByte(CONNECT, 0, 0, 0);
    if (o.version == 3 || o.version == 4) && ConnectRemLen(o) <= MAX_REMAINING_LENGTH {
      PacketIsFixed(header, ConnectBody(o), bufLen);
    }
    len := WriteFixed(buf, header, remLen);
    ghost var now := buf[..];
    len := WriteConnectBody(buf, len, o);
    Extend(was, now, buf[..], 0, [header] + Encode(remLen), ConnectBody(o));
    ret := SUCCESS_RET;
  }

  /** What a CONNECT takes up. */
  function ConnectSize(o: Options): nat {
    Size(ConnectRemLen(o)) + if o.version == 3 || o.version == 4 then 0 else 12
  }

  method WriteConnectBody(buf: array<byte>, ptr: nat, o: Options) returns (len: nat)
    requires ptr + |ConnectBody(o)| <= buf.Length
    modifies buf
    ensures len == ptr + |ConnectBody(o)| && Holds(buf[..], old(buf[..]), ptr, ConnectBody(o))
  {
    hide U16, Utf8, Flags, ConnectBody, Payload, Holds;
    PayloadLen(o);
    ghost var was := buf[..];
    var (name, version) := Protocol(o);
    len := WriteUtf8String(buf, ptr, name);
    ghost var body, now := Utf8(name), buf[..];
    len := WriteChar(buf, len, version);
    Extend(was, now, buf[..], ptr, body, [version]);
    body, now := body + [version], buf[..];
    len := WriteChar(buf, len, Flags(o));
    Extend(was, now, buf[..], ptr, body, [Flags(o)]);
    body, now := body + [Flags(o)], buf[..];
    len := WriteUint16(buf, len, o.keepAlive);
    Extend(was, now, buf[..], ptr, body, U16(o.keepAlive));
    body, now := body + U16(o.keepAlive), buf[..];
    len := WritePayload(buf, len, o);
    Extend(was, now, buf[..], ptr, body, Payload(o));
    BodyParts(o, body);
  }

  method WritePayload(buf: array<byte>, ptr: nat, o: Options) returns (len: nat)
    requires ptr + |Payload(o)| <= buf.Length
    modifies buf
    ensures len == ptr + |Payload(o)| && Holds(buf[..], old(buf[..]), ptr, Payload(o))
  {
    hide Utf8, OptionalUtf8, Holds;
    ghost var was := buf[..];
    len := WriteUtf8String(buf, ptr, o.clientId);
    ghost var body, now := Utf8(o.clientId), buf[..];
    len := WriteOptional(buf, len, o.username);
    Extend(was, now, buf[..], ptr, body, OptionalUtf8(o.username));
    body, now := body + OptionalUtf8(o.username), buf[..];
    len := WriteOptional(buf, len, o.password);
    Extend(was, now, buf[..], ptr, body, OptionalUtf8(o.password));
    assert body + OptionalUtf8(o.password) == Payload(o);
  }

  method WriteOptional(buf: array<byte>, ptr: nat, s: Option<seq<byte>>) returns (len: nat)
    requires ptr + |OptionalUtf8(s)| <= buf.Length
    modifies buf
    ensures len == ptr + |OptionalUtf8(s)| && Holds(buf[..], old(buf[..]), ptr, OptionalUtf8(s))
  {
    hide Utf8, Holds;
    len := ptr;
    NothingWritten(buf[..], ptr);
    if s.Some? {
      len := WriteUtf8String(buf, ptr, s.value);
    }
  }

  lemma PayloadLen(o: Options)
    ensures |ConnectBody(o)| == 2 + |Protocol(o).0| + 4 + |Payload(o)|
  {
  }

  lemma BodyParts(o: Options, body: seq<byte>)
    requires body == Utf8(Protocol(o).0) + [Protocol(o).1] + [Flags(o)] + U16(o.keepAlive)
    ensures body + Payload(o) == ConnectBody(o)
  {
  }

  /** A server reads a CONNECT body: protocol, flags, keep-alive, then the strings the flags
      announce, and nothing behind them. A password without a user name is a protocol violation
      (section 3.1.2.9). */
  function ReadConnect(body: seq<byte>): Option<Options> {
    match ReadString(body)
    case Bad => None
    case Got(name, s) =>
      if |s| < 4 || !((name == [77, 81, 84, 84] && s[0] == 4) ||
                      (name == [77, 81, 73, 115, 100, 112] && s[0] == 3)) then
        None
      else
        ReadPayload(s[0], s[1], Number(s[2], s[3]), s[4..])
  }

  function ReadPayload(version: byte, flags: byte, keepAlive: uint16, s: seq<byte>): Option<Options> {
    if flags / 128 == 0 && flags / 64 % 2 == 1 then None
    else
    match ReadString(s)
    case Bad => None
    case Got(clientId, s1) =>
      match ReadOptional(flags / 128 == 1, s1)
      case Bad => None
      case Got(username, s2) =>
        match ReadOptional(flags / 64 % 2 == 1, s2)
        case Bad => None
        case Got(password, s3) =>
          if s3 == [] then Some(Options(version, clientId, username, password, keepAlive, flags / 2 % 2 == 1)) else None
  }

  function ReadOptional(announced: bool, s: seq<byte>): Read<Option<seq<byte>>> {
    if !announced then Got(None, s)
    else match ReadString(s)
      case Bad => Bad
      case Got(x, rest) => Got(Some(x), rest)
  }

  /** The server understands what has been sent exactly when there are a user name and a password. */
  lemma ConnectRoundTripExactly(o: Options)
    requires Sendable(o) && (o.version == 3 || o.version == 4)
    ensures ReadConnect(ConnectBody(o)) == Some(o) <==> o.username.Some? && o.password.Some?
    ensures o.username.None? || o.password.None? ==> ReadConnect(ConnectBody(o)) == None
  {
    hide Utf8, U16, ReadPayload, Payload;
    var (name, version) := Protocol(o);
    var rest := [version, Flags(o)] + U16(o.keepAlive) + Payload(o);
    StringRoundTrip(name, rest);
    NumberRoundTrip(o.keepAlive);
    assert rest[2] == U16(o.keepAlive)[0] && rest[3] == U16(o.keepAlive)[1] && rest[4..] == Payload(o);
    PayloadRoundTrip(o);
  }

  /** So the server turns away a client that has a password and no user name, and one that has
      neither. */
  lemma ConnectsTurnedAway(clientId: seq<byte>, password: seq<byte>, keepAlive: uint16)
    requires |clientId| < TWO_16 && |password| < TWO_16
    ensures ReadConnect(ConnectBody(Options(4, clientId, None, Some(password), keepAlive, true))) == None
    ensures ReadConnect(ConnectBody(Options(4, clientId, None, None, keepAlive, true))) == None
  {
    ConnectRoundTripExactly(Options(4, clientId, None, Some(password), keepAlive, true));
    ConnectRoundTripExactly(Options(4, clientId, None, None, keepAlive, true));
  }

  lemma PayloadRoundTrip(o: Options)
    requires Sendable(o) && (o.version == 3 || o.version == 4)
    ensures ReadPayload(Protocol(o).1, Flags(o), o.keepAlive, Payload(o))
            == if o.username.Some? && o.password.Some? then Some(o) else None
  {
    hide Utf8, ReadString;
    if o.username.Some? {
      var u, p := OptionalUtf8(o.username), OptionalUtf8(o.password);
      StringRoundTrip(o.clientId, u + p);
      StringRoundTrip(o.username.value, p);
      if o.password.Some? {
        StringRoundTrip(o.password.value, []);
        assert Utf8(o.password.value) + [] == p;
      } else {
        NoString();
      }
    }
  }

  lemma NoString()
    ensures ReadString([]) == Bad
  {
  }

  // ----- SUBSCRIBE and UNSUBSCRIBE (sections 3.8 and 3.10) -----

  /** One requested filter; the QoS byte follows it in a SUBSCRIBE only. */
  datatype Entry = Entry(filter: seq<byte>, qos: Option<byte>)

  function EntryBytes(e: Entry): (s: seq<byte>)
    ensures |s| == 2 + |e.filter| + (if e.qos.Some? then 1 else 0)
  {
    Utf8(e.filter) + (if e.qos.Some? then [e.qos.value] else [])
  }

  function EntriesBytes(es: seq<Entry>): seq<byte> {
    if es == [] then [] else EntriesBytes(es[..|es| - 1]) + EntryBytes(es[|es| - 1])
  }

  /** The filters that `*topicFilters + i` denotes: the first one, less its first `i` bytes. */
  function Sent(first: seq<byte>, qos: seq<byte>, count: nat, subscribe: bool): (es: seq<Entry>)
    requires count <= |first| + 1 && (subscribe ==> count <= |qos|)
    ensures |es| == count &&
            forall i :: 0 <= i < count ==> es[i] == Entry(first[i..], if subscribe then Some(qos[i]) else None)
  {
    if count == 0 then []
    else
      Sent(first, qos, count - 1, subscribe)
      + [Entry(first[count - 1..], if subscribe then Some(qos[count - 1]) else None)]
  }

  function RequestBody(id: uint16, es: seq<Entry>): seq<byte> {
    U16(id) + EntriesBytes(es)
  }

  /** _get_subscribe_packet_rem_len and _get_unsubscribe_packet_rem_len: the length of the body that
      will be written. */
  method RequestRemLen(first: seq<byte>, ghost qos: seq<byte>, count: nat, subscribe: bool, id: uint16)
    returns (len: nat)
    requires count <= |first| + 1 && (subscribe ==> count <= |qos|)
    ensures len == |RequestBody(id, Sent(first, qos, count, subscribe))|
  {
    hide EntriesBytes, Sent, Utf8;
    len := 2;
    SentStep(first, qos, 0, subscribe);
    for i := 0 to count
      invariant len == 2 + |EntriesBytes(Sent(first, qos, i, subscribe))|
    {
      SentStep(first, qos, i, subscribe);
      len := len + 2 + |first[i..]| + (if subscribe then 1 else 0);
    }
  }

  /** _serialize_subscribe_packet and _serialize_unsubscribe_packet into a buffer of `bufLen` bytes, with
      what lies behind it in memory. */
  method SerializeRequest(buf: array<byte>, bufLen: nat, subscribe: bool, dup: byte, id: uint16, count: nat,
                          first: seq<byte>, qos: seq<byte>)
    returns (ret: int, len: nat)
    requires bufLen < TWO_32 && count <= |first| + 1 && (subscribe ==> count <= |qos|)
    requires var n := |RequestBody(id, Sent(first, qos, count, subscribe))|;
             PacketLen(n) <= bufLen ==> Size(n) <= buf.Length
    modifies buf
    ensures var body := RequestBody(id, Sent(first, qos, count, subscribe));
            var packet := Packet(RequestHeader(subscribe, dup), |body|, body);
            && ret == (if PacketLen(|body|) > bufLen then ERR_MQTT_BUFFER_TOO_SHORT else SUCCESS_RET)
            && (ret != SUCCESS_RET ==> buf[..] == old(buf[..]))
            && (ret == SUCCESS_RET ==> len == |packet| == Size(|body|) && Holds(buf[..], old(buf[..]), 0, packet))
            && (ret == SUCCESS_RET && |body| <= MAX_REMAINING_LENGTH ==>
                  packet == Fixed(RequestHeader(subscribe, dup), body) && len <= bufLen)
  {
    len := 0;
    var size := RequestRemLen(first, qos, count, subscribe, id);
    var remLen := size % TWO_32;
    SameRoom(size);
    if PacketLen(remLen) > bufLen {
      return ERR_MQTT_BUFFER_TOO_SHORT, len;
    }
    hide PacketLen, HeaderByte, Encode, Sent, Holds, RequestBody;
    ghost var was := buf[..];
    var header := RequestHeader(subscribe, dup);
    ghost var body := RequestBody(id, Sent(first, qos, count, subscribe));
    if |body| <= MAX_REMAINING_LENGTH {
      PacketIsFixed(header, body, bufLen);
    }
    len := WriteFixed(buf, header, remLen);
    ghost var now := buf[..];
    len := WriteRequestBody(buf, len, subscribe, id, count, first, qos);
    Extend(was, now, buf[..], 0, [header] + Encode(remLen), body);
    ret := SUCCESS_RET;
  }

  function RequestHeader(subscribe: bool, dup: byte): byte {
    HeaderByte(if subscribe then SUBSCRIBE else UNSUBSCRIBE, 1, dup, 0)
  }

  method WriteRequestBody(buf: array<byte>, ptr: nat, subscribe: bool, id: uint16, count: nat, first: seq<byte>,
                          qos: seq<byte>)
    returns (len: nat)
    requires count <= |first| + 1 && (subscribe ==> count <= |qos|)
    requires ptr + |RequestBody(id, Sent(first, qos, count, subscribe))| <= buf.Length
    modifies buf
    ensures var body := RequestBody(id, Sent(first, qos, count, subscribe));
            len == ptr + |body| && Holds(buf[..], old(buf[..]), ptr, body)
  {
    hide U16, EntriesBytes, Sent, Holds;
    ghost var was := buf[..];
    len := WriteUint16(buf, ptr, id);
    ghost var now := buf[..];
    len := WriteEntries(buf, len, subscribe, count, first, qos);
    Extend(was, now, buf[..], ptr, U16(id), EntriesBytes(Sent(first, qos, count, subscribe)));
  }

  method WriteEntries(buf: array<byte>, ptr: nat, subscribe: bool, count: nat, first: seq<byte>, qos: seq<byte>)
    returns (len: nat)
    requires count <= |first| + 1 && (subscribe ==> count <= |qos|)
    requires ptr + |EntriesBytes(Sent(first, qos, count, subscribe))| <= buf.Length
    modifies buf
    ensures var s := EntriesBytes(Sent(first, qos, count, subscribe));
            len == ptr + |s| && Holds(buf[..], old(buf[..]), ptr, s)
  {
    hide EntriesBytes, EntryBytes, Sent, Holds;
    len := ptr;
    ghost var was := buf[..];
    ghost var s: seq<byte> := [];
    SentStep(first, qos, 0, subscribe);
    NothingWritten(was, ptr);
    for i := 0 to count
      invariant s == EntriesBytes(Sent(first, qos, i, subscribe)) && len == ptr + |s| <= buf.Length
      invariant Holds(buf[..], was, ptr, s)
    {
      SentStep(first, qos, i, subscribe);
      SentGrows(first, qos, i + 1, count, subscribe);
      ghost var e, now := Entry(first[i..], if subscribe then Some(qos[i]) else None), buf[..];
      len := WriteEntry(buf, len, first[i..], subscribe, if subscribe then qos[i] else 0);
      Extend(was, now, buf[..], ptr, s, EntryBytes(e));
      s := s + EntryBytes(e);
    }
  }

  method WriteEntry(buf: array<byte>, ptr: nat, filter: seq<byte>, subscribe: bool, qos: byte) returns (len: nat)
    requires ptr + |EntryBytes(Entry(filter, if subscribe then Some(qos) else None))| <= buf.Length
    modifies buf
    ensures var s := EntryBytes(Entry(filter, if subscribe then Some(qos) else None));
            len == ptr + |s| && Holds(buf[..], old(buf[..]), ptr, s)
  {
    hide Utf8, Holds;
    ghost var was := buf[..];
    len := WriteUtf8String(buf, ptr, filter);
    ghost var now := buf[..];
    if subscribe {
      len := WriteChar(buf, len, qos);
      Extend(was, now, buf[..], ptr, Utf8(filter), [qos]);
    }
    assert Utf8(filter) + [] == Utf8(filter);
  }

  lemma SentStep(first: seq<byte>, qos: seq<byte>, i: nat, subscribe: bool)
    requires i <= |first| + 1 && (subscribe ==> i <= |qos|)
    ensures EntriesBytes(Sent(first, qos, 0, subscribe)) == []
    ensures i <= |first| && (subscribe ==> i < |qos|) ==>
              EntriesBytes(Sent(first, qos, i + 1, subscribe))
              == EntriesBytes(Sent(first, qos, i, subscribe))
                 + EntryBytes(Entry(first[i..], if subscribe then Some(qos[i]) else None))
  {
    if i <= |first| && (subscribe ==> i < |qos|) {
      var es := Sent(first, qos, i + 1, subscribe);
      assert es[..i] == Sent(first, qos, i, subscribe);
    }
  }

  lemma {:induction false} SentGrows(first: seq<byte>, qos: seq<byte>, i: nat, count: nat, subscribe: bool)
    requires i <= count <= |first| + 1 && (subscribe ==> count <= |qos|)
    ensures |EntriesBytes(Sent(first, qos, i, subscribe))| <= |EntriesBytes(Sent(first, qos, count, subscribe))|
    decreases count - i
  {
    hide EntriesBytes, Sent, EntryBytes;
    if i < count {
      SentStep(first, qos, i, subscribe);
      SentGrows(first, qos, i + 1, count, subscribe);
    }
  }

  /** A server reads the list of filters of a SUBSCRIBE or an UNSUBSCRIBE. */
  function ReadEntries(s: seq<byte>, subscribe: bool): Option<seq<Entry>>
    decreases |s|
  {
    if s == [] then Some([])
    else
      match ReadString(s)
      case Bad => None
      case Got(filter, rest) =>
        if !subscribe then
          var more := ReadEntries(rest, subscribe);
          if more.None? then None else Some([Entry(filter, None)] + more.value)
        else if rest == [] then None
        else
          var more := ReadEntries(rest[1..], subscribe);
          if more.None? then None else Some([Entry(filter, Some(rest[0]))] + more.value)
  }

  predicate Readable(es: seq<Entry>, subscribe: bool) {
    forall e :: e in es ==> |e.filter| < TWO_16 && e.qos.Some? == subscribe
  }

  lemma LastEntry(es: seq<Entry>)
    requires es != []
    ensures EntriesBytes(es) == EntriesBytes(es[..|es| - 1]) + EntryBytes(es[|es| - 1])
  {
  }

  lemma {:induction false} FirstEntry(es: seq<Entry>)
    requires es != []
    ensures EntriesBytes(es) == EntryBytes(es[0]) + EntriesBytes(es[1..])
  {
    hide EntryBytes, EntriesBytes;
    var n := |es| - 1;
    LastEntry(es);
    if n == 0 {
      assert es[..0] == [] && es[1..] == [];
      assert EntriesBytes([]) == [] by { NoEntries(); }
    } else {
      FirstEntry(es[..n]);
      LastEntry(es[1..]);
      assert es[..n][1..] == es[1..][..n - 1];
      var a, b, c := EntryBytes(es[0]), EntriesBytes(es[1..][..n - 1]), EntryBytes(es[n]);
      assert a + b + c == a + (b + c);
    }
  }

  lemma NoEntries()
    ensures EntriesBytes([]) == []
  {
  }

  lemma {:induction false} EntriesRoundTrip(es: seq<Entry>, subscribe: bool)
    requires Readable(es, subscribe)
    ensures ReadEntries(EntriesBytes(es), subscribe) == Some(es)
  {
    hide EntriesBytes, EntryBytes;
    if es == [] {
      NoEntries();
    } else {
      FirstEntry(es);
      EntriesRoundTrip(es[1..], subscribe);
      OneMore(es[0], EntriesBytes(es[1..]), subscribe);
      assert es == [es[0]] + es[1..];
    }
  }

  lemma OneMore(e: Entry, rest: seq<byte>, subscribe: bool)
    requires |e.filter| < TWO_16 && e.qos.Some? == subscribe && ReadEntries(rest, subscribe).Some?
    ensures ReadEntries(EntryBytes(e) + rest, subscribe) == Some([e] + ReadEntries(rest, subscribe).value)
  {
    hide Utf8, ReadString;
    var s := EntryBytes(e) + rest;
    if subscribe {
      var r := [e.qos.value] + rest;
      StringRoundTrip(e.filter, r);
      assert s == Utf8(e.filter) + r && r[1..] == rest;
    } else {
      StringRoundTrip(e.filter, rest);
      assert s == Utf8(e.filter) + rest;
    }
  }

  /** The entries of a request for the given filters. */
  function Asked(filters: seq<seq<byte>>, qos: seq<byte>, subscribe: bool): (es: seq<Entry>)
    requires |filters| == |qos|
    ensures |es| == |filters|
    ensures forall i :: 0 <= i < |es| ==> es[i] == Entry(filters[i], if subscribe then Some(qos[i]) else None)
  {
    seq(|filters|, i requires 0 <= i < |filters| => Entry(filters[i], if subscribe then Some(qos[i]) else None))
  }

  /** The server gets the filters that were asked for exactly when each is the first one less as
      many bytes as its position: for a single filter always. */
  lemma RequestRoundTripExactly(filters: seq<seq<byte>>, qos: seq<byte>, subscribe: bool)
    requires 0 < |filters| && |filters| == |qos| && |filters| <= |filters[0]| + 1 && |filters[0]| < TWO_16
    ensures ReadEntries(EntriesBytes(Sent(filters[0], qos, |filters|, subscribe)), subscribe)
              == Some(Asked(filters, qos, subscribe))
            <==> forall i :: 0 <= i < |filters| ==> filters[i] == filters[0][i..]
  {
    hide ReadEntries, EntriesBytes, Sent, Asked;
    var sent := Sent(filters[0], qos, |filters|, subscribe);
    EntriesRoundTrip(sent, subscribe);
    SameEntriesExactly(filters, qos, subscribe);
  }

  lemma SameEntriesExactly(filters: seq<seq<byte>>, qos: seq<byte>, subscribe: bool)
    requires 0 < |filters| && |filters| == |qos| && |filters| <= |filters[0]| + 1
    ensures Sent(filters[0], qos, |filters|, subscribe) == Asked(filters, qos, subscribe)
            <==> forall i :: 0 <= i < |filters| ==> filters[i] == filters[0][i..]
  {
    hide Sent, Asked;
    var sent, asked := Sent(filters[0], qos, |filters|, subscribe), Asked(filters, qos, subscribe);
    if sent == asked {
      forall i | 0 <= i < |filters|
        ensures filters[i] == filters[0][i..]
      {
        assert sent[i] == asked[i];
      }
    }
  }
}
