// Reading packets off the byte stream: _read_mqtt_packet of uiot/mqtt/src/mqtt_client_common.c.
module Framing {
  import opened MqttLength
  import opened MqttCodec

  const ERR_MQTT_NOTHING_TO_READ := -109

  type Failure = r: int | r < 0 witness -1

  /** How one read turns out: at most `n` bytes come, or it fails. */
  datatype Outcome = Upto(n: nat) | Fails(rc: Failure)

  /** A packet as a server may send it: any length field that decodes to the length of the body. */
  datatype Packet = Packet(header: byte, digits: seq<byte>, body: seq<byte>)

  predicate ValidPacket(p: Packet) {
    Decode(p.digits, MAX_NO_OF_REMAINING_LENGTH_BYTES) == Decoded(|p.body|, |p.digits|)
  }

  function Wire(p: Packet): (s: seq<byte>)
    ensures |s| >= 1
  {
    [p.header] + p.digits + p.body
  }

  /** The packet with the shortest length field fits the buffer. */
  predicate Fits(p: Packet, size: nat) { |Fixed(p.header, p.body)| <= size }

  function Min(a: int, b: int): int { if a <= b then a else b }

  /** What is left of a stream of which bytes have been taken from the front. */
  ghost predicate Suffix(s: seq<byte>, whole: seq<byte>) {
    |s| <= |whole| && whole[|whole| - |s|..] == s
  }

  class Client {
    const readBuf: array<byte>
    var stream: seq<byte>  // sent and not yet read
    var plan: seq<Outcome>  // of the coming reads; then every read is full

    constructor (size: nat, stream: seq<byte>, plan: seq<Outcome>)
      ensures readBuf.Length == size && fresh(readBuf) && this.stream == stream && this.plan == plan
    {
      readBuf := new byte[size](_ => 0);
      this.stream, this.plan := stream, plan;
    }

    /** network_stack.read */
    method Read(len: nat) returns (n: int, data: seq<byte>)
      modifies `stream, `plan
      ensures old(stream) == data + stream && |data| <= len
      ensures n > 0 ==> n == |data|
      ensures n <= 0 ==> data == []
      ensures old(plan) == [] ==> n == |data| == Min(len, |old(stream)|) && plan == []
      ensures old(plan) != [] && old(plan)[0].Upto? ==> n == |data| == Min(Min(len, |old(stream)|), old(plan)[0].n)
    {
      if plan != [] && plan[0].Fails? {
        n, data := plan[0].rc, [];
        plan := plan[1..];
      } else {
        n := Min(len, |stream|);
        if plan != [] {
          n := Min(n, plan[0].n);
          plan := plan[1..];
        }
        data := stream[..n];
        stream := stream[n..];
      }
    }

    /** _decode_packet_rem_len_with_net_read: one byte at a time, and no fifth byte. */
    method DecodeFromNet() returns (ret: int, value: nat)
      modifies `stream, `plan
      ensures Suffix(stream, old(stream)) && (ret == SUCCESS_RET ==> value <= MAX_REMAINING_LENGTH)
      ensures old(plan) == [] ==>
                && plan == []
                && match Decode(old(stream), MAX_NO_OF_REMAINING_LENGTH_BYTES)
                   case Decoded(v, u) => ret == SUCCESS_RET && value == v && stream == old(stream)[u..]
                   case TooLong => ret == ERR_MQTT_PACKET_READ_ERROR
                   case Short => ret == FAILURE_RET
    {
      hide Decode, After;
      var multiplier: nat, len := 1, 0;
      ret, value := SUCCESS_RET, 0;
      NothingYet(stream);
      ghost var whole, taken: seq<byte> := stream, [];
      assert whole == taken + stream;
      while true
        invariant 0 <= len <= 4 && whole == taken + stream && |taken| == len && (old(plan) == [] ==> plan == [])
        invariant Decode(whole, 4) == After(value, multiplier, len, Decode(stream, 4 - len))
        decreases 4 - len
      {
        ghost var rest := stream;
        NoMore(value, multiplier, len, rest, 4 - len);
        len := len + 1;
        if len > MAX_NO_OF_REMAINING_LENGTH_BYTES {
          return ERR_MQTT_PACKET_READ_ERROR, value;
        }
        var n, data := Read(1);
        if n <= 0 {
          assert whole == taken + stream;
          return FAILURE_RET, value;
        }
        var c := data[0];
        assert rest[1..] == stream && rest[0] == c;
        taken := taken + data;
        assert whole == taken + stream;
        Unrolled(value, multiplier, len, c, rest, 5 - len);
        value := value + (c as int) % 128 * multiplier;
        multiplier := multiplier * 128;
        if c < 128 {
          break;
        }
      }
      assert stream == whole[len..];
      DecodedBound(whole);
    }

    /** The loop that throws a packet away that is longer than the buffer. */
    method Drain(remLen: nat)
      requires remLen >= readBuf.Length > 0
      modifies this, readBuf
      ensures Suffix(stream, old(stream))
      ensures old(plan) == [] && |old(stream)| >= remLen ==> plan == [] && stream == old(stream)[remLen..]
    {
      var total, want := 0, readBuf.Length;
      ghost var whole := stream;
      while true
        invariant 0 <= total < remLen && 0 < want == Min(readBuf.Length, remLen - total)
        invariant total <= |whole| && stream == whole[total..] && (old(plan) == [] ==> plan == [])
        decreases remLen - total
      {
        var n, data := Read(want);
        Store(0, data);
        if n > 0 {
          total := total + n;
          want := if remLen - total >= readBuf.Length then readBuf.Length else remLen - total;
        }
        assert stream == whole[total..];
        if total >= remLen || n <= 0 {
          break;
        }
      }
    }

    /** The bytes read land in the buffer. */
    method Store(at: nat, data: seq<byte>)
      requires at + |data| <= readBuf.Length
      modifies readBuf
      ensures readBuf[..at] == old(readBuf[..at]) && readBuf[at..at + |data|] == data
    {
      ghost var was := readBuf[..];
      var end := WriteBytes(readBuf, at, data);
      Written(readBuf[..], was, at, data);
    }

    /** _read_mqtt_packet. With full reads one call takes exactly one packet off the stream: the
        buffer holds it with the shortest length field if it fits; otherwise it is dropped. */
    method ReadPacket(ghost p: Packet, ghost rest: seq<byte>) returns (ret: int, packetType: nat)
      requires readBuf.Length >= 5
      modifies this, readBuf
      ensures Suffix(stream, old(stream))
      ensures old(plan) == [] && old(stream) == [] ==> ret == ERR_MQTT_NOTHING_TO_READ && stream == [] && plan == []
      ensures old(plan) == [] && old(stream) != [] &&
              Decode(old(stream)[1..], MAX_NO_OF_REMAINING_LENGTH_BYTES).TooLong? ==>
                ret == ERR_MQTT_PACKET_READ_ERROR
      ensures old(plan) == [] && ValidPacket(p) && old(stream) == Wire(p) + rest ==>
                && stream == rest && plan == [] &&
                   ret == (if Fits(p, readBuf.Length) then SUCCESS_RET else ERR_MQTT_BUFFER_TOO_SHORT)
                && (Fits(p, readBuf.Length) ==> Fixed(p.header, p.body) <= readBuf[..] && packetType == p.header / 16)
    {
      hide Decode, Encode;
      packetType := 0;
      ghost var whole := stream;
      ghost var full := plan == [] && ValidPacket(p) && stream == Wire(p) + rest;
      var n, data := Read(1);
      if n < 0 {
        return n, packetType;
      } else if n == 0 {
        return ERR_MQTT_NOTHING_TO_READ, packetType;
      }
      Store(0, data);
      ghost var afterHeader := stream;
      ghost var first := data[0];
      assert readBuf[..1] == [first];
      if full {
        AfterHeader(p, rest, first, stream);
      }
      var remLen;
      ret, remLen := DecodeFromNet();
      Chained(whole, data, afterHeader, stream);
      if ret != SUCCESS_RET {
        return;
      }
      ghost var afterLength := stream;
      if remLen >= readBuf.Length {
        Drain(remLen);
        ChainedOn(whole, afterLength, stream);
        return ERR_MQTT_BUFFER_TOO_SHORT, packetType;
      }
      ret, packetType := ReadBody(first, remLen);
      ChainedOn(whole, afterLength, stream);
    }

    /** The length field is put into the buffer again, and the body behind it if there is room. A
        read that brings only a part of the body is taken for the whole. */
    method ReadBody(ghost header: byte, remLen: nat) returns (ret: int, packetType: nat)
      requires 5 <= readBuf.Length && remLen < readBuf.Length && remLen <= MAX_REMAINING_LENGTH &&
               readBuf[..1] == [header]
      modifies this, readBuf
      ensures Suffix(stream, old(stream))
      ensures old(plan) == [] && |old(stream)| >= remLen ==>
                var body := old(stream)[..remLen]; var fits := |Fixed(header, body)| <= readBuf.Length;
                && plan == [] && stream == old(stream)[remLen..]
                && ret == (if fits then SUCCESS_RET else ERR_MQTT_BUFFER_TOO_SHORT)
                && (fits ==> Fixed(header, body) <= readBuf[..] && packetType == header / 16)
      ensures 1 + |Encode(remLen)| + remLen <= readBuf.Length ==>
                forall k: nat :: old(plan) == [Upto(k)] && 0 < k <= remLen <= |old(stream)| ==>
                            ret == SUCCESS_RET && stream == old(stream)[k..]
    {
      hide Encode;
      packetType := 0;
      EncodedSize(remLen);
      var len := WriteRemLen(readBuf, 1, remLen);
      len := 1 + len;
      ghost var front := [header] + Encode(remLen);
      assert readBuf[..len] == front;
      if remLen > 0 && len + remLen > readBuf.Length {
        var _, data := Read(remLen);
        Store(0, data);
        return ERR_MQTT_BUFFER_TOO_SHORT, packetType;
      }
      if remLen > 0 {
        var n, data := Read(remLen);
        Store(len, data);
        assert readBuf[..len + |data|] == front + data;
        if n < 0 {
          return n, packetType;
        } else if n == 0 {
          return ERR_MQTT_NOTHING_TO_READ, packetType;
        }
      }
      assert readBuf[0] == readBuf[..len][0] == header;
      packetType := readBuf[0] / 16;
      ret := SUCCESS_RET;
    }
  }

  lemma AfterHeader(p: Packet, rest: seq<byte>, first: byte, stream: seq<byte>)
    requires ValidPacket(p) && [first] + stream == Wire(p) + rest
    ensures first == p.header && stream == p.digits + (p.body + rest)
    ensures Decode(stream, MAX_NO_OF_REMAINING_LENGTH_BYTES) == Decoded(|p.body|, |p.digits|)
    ensures stream[|p.digits|..] == p.body + rest && (p.body + rest)[..|p.body|] == p.body &&
            (p.body + rest)[|p.body|..] == rest
    ensures |p.body| <= MAX_REMAINING_LENGTH
  {
    var all := Wire(p) + rest;
    assert all[0] == p.header && all[1..] == p.digits + (p.body + rest);
    assert ([first] + stream)[0] == first && ([first] + stream)[1..] == stream;
    DecodeIgnoresTail(p.digits, p.body + rest, MAX_NO_OF_REMAINING_LENGTH_BYTES);
    DecodedBound(p.digits);
  }

  lemma Pow128Is4(k: nat)
    requires k <= 4
    ensures Pow128(k) <= MAX_REMAINING_LENGTH + 1
  {
    assert Pow128(0) == 1 && Pow128(1) == 128 && Pow128(2) == 128 * 128;
    assert Pow128(3) == 128 * Pow128(2) && Pow128(4) == 128 * Pow128(3);
  }

  lemma DecodedBound(s: seq<byte>)
    ensures Decode(s, 4).Decoded? ==> Decode(s, 4).value <= MAX_REMAINING_LENGTH
  {
    if Decode(s, 4).Decoded? {
      Canonical(s, 4);
      Pow128Is4(Decode(s, 4).used);
    }
  }

  lemma {:induction false} DecodeIgnoresTail(s: seq<byte>, tail: seq<byte>, digits: nat)
    requires Decode(s, digits).Decoded?
    ensures Decode(s + tail, digits) == Decode(s, digits)
  {
    if s[0] >= 128 {
      assert (s + tail)[1..] == s[1..] + tail;
      DecodeIgnoresTail(s[1..], tail, digits - 1);
    }
  }

  lemma Chained(whole: seq<byte>, data: seq<byte>, middle: seq<byte>, end: seq<byte>)
    requires whole == data + middle && Suffix(end, middle)
    ensures Suffix(end, whole)
  {
  }

  lemma ChainedOn(whole: seq<byte>, middle: seq<byte>, end: seq<byte>)
    requires Suffix(middle, whole) && Suffix(end, middle)
    ensures Suffix(end, whole)
  {
    assert whole[|whole| - |middle|..][|middle| - |end|..] == whole[|whole| - |end|..];
  }

  function WireAll(ps: seq<Packet>): seq<byte> {
    if ps == [] then [] else Wire(ps[0]) + WireAll(ps[1..])
  }

  /** The packets that fit, in their order and with the shortest length field. */
  function Fitting(ps: seq<Packet>, size: nat): seq<seq<byte>> {
    if ps == [] then []
    else (if Fits(ps[0], size) then [Fixed(ps[0].header, ps[0].body)] else []) + Fitting(ps[1..], size)
  }

  ghost predicate AllValid(ps: seq<Packet>) {
    forall p :: p in ps ==> ValidPacket(p)
  }

  /** Successive calls parse the stream into the packets sent, less those that do not fit. */
  method ReadStream(c: Client, ghost ps: seq<Packet>) returns (got: seq<seq<byte>>)
    requires c.readBuf.Length >= 5 && c.plan == [] && AllValid(ps) && c.stream == WireAll(ps)
    modifies c, c.readBuf
    ensures got == Fitting(ps, c.readBuf.Length) && c.stream == []
  {
    hide Fitting, WireAll, AllValid, Fits, Fixed, Wire, ValidPacket;
    got := [];
    ghost var left, size := ps, c.readBuf.Length;
    while true
      invariant c.plan == [] && AllValid(left) && c.stream == WireAll(left)
      invariant got + Fitting(left, size) == Fitting(ps, size)
      decreases |left|
    {
      Unroll(left, size);
      var some, more := NextPacket(c, left);
      if !some {
        break;
      }
      got := got + more;
      left := left[1..];
    }
  }

  method NextPacket(c: Client, ghost left: seq<Packet>) returns (some: bool, more: seq<seq<byte>>)
    requires c.readBuf.Length >= 5 && c.plan == [] && AllValid(left) && c.stream == WireAll(left)
    modifies c, c.readBuf
    ensures c.plan == [] && (some <==> left != [])
    ensures left == [] ==> c.stream == []
    ensures left != [] ==> c.stream == WireAll(left[1..])
    ensures left != [] ==> more == if Fits(left[0], c.readBuf.Length) then [Fixed(left[0].header, left[0].body)] else []
  {
    hide Decode, Encode;
    more := [];
    ghost var p := if left == [] then Packet(0, [], []) else left[0];
    ghost var rest := if left == [] then [] else WireAll(left[1..]);
    var ret, _ := c.ReadPacket(p, rest);
    some := ret != ERR_MQTT_NOTHING_TO_READ;
    if ret == SUCCESS_RET {
      FoundInBuffer(p, c.readBuf[..]);
      var _, value, used := ReadRemLen(c.readBuf[..], 1);
      more := [c.readBuf[..1 + used + value]];
    }
  }

  lemma Unroll(ps: seq<Packet>, size: nat)
    ensures ps == [] ==> WireAll(ps) == [] && Fitting(ps, size) == []
    ensures ps != [] && AllValid(ps) ==> AllValid(ps[1..])
    ensures ps != [] ==>
              Fitting(ps, size)
              == (if Fits(ps[0], size) then [Fixed(ps[0].header, ps[0].body)] else []) + Fitting(ps[1..], size)
  {
  }

  lemma FoundInBuffer(p: Packet, buf: seq<byte>)
    requires Fixed(p.header, p.body) <= buf && ValidPacket(p)
    ensures Decode(buf[1..], 4) == Decoded(|p.body|, |Encode(|p.body|)|)
    ensures buf[..1 + |Encode(|p.body|)| + |p.body|] == Fixed(p.header, p.body)
  {
    hide Encode, Decode;
    DecodedBound(p.digits);
    var tail := buf[|Fixed(p.header, p.body)|..];
    assert buf == Fixed(p.header, p.body) + tail;
    assert buf[1..] == Encode(|p.body|) + (p.body + tail);
    FourBytesExactly(|p.body|, p.body + tail);
  }

  /** A PUBLISH that fits arrives with the fields it was sent with, and the stream stands at the
      next packet. */
  method ReceivePublish(c: Client, ghost p: Publish, ghost rest: seq<byte>) returns (r: Parsed)
    requires c.readBuf.Length >= 5 && c.plan == [] && ValidPublish(p) && c.stream == PublishBytes(p) + rest
    requires |PublishBytes(p)| <= c.readBuf.Length && |p.topic| <= UIOT_MQTT_RX_BUF_LEN
    modifies c, c.readBuf
    ensures SameFields(p, r, 0, PublishBytes(p)) && c.stream == rest
  {
    hide Decode, Encode, HeaderByte, ParsePublish, SameFields;
    ghost var body := PublishBody(p);
    ghost var packet := Packet(HeaderByte(PUBLISH, p.qos, p.dup, p.retained), Encode(|body|), body);
    FourBytesExactly(|body|, []);
    assert Encode(|body|) + [] == Encode(|body|);
    var ret, packetType := c.ReadPacket(packet, rest);
    r := DeserializePublish(c.readBuf[..], c.readBuf.Length);
    ghost var tail := c.readBuf[|PublishBytes(p)|..];
    assert c.readBuf[..] == PublishBytes(p) + tail;
    PublishRoundTripExactly(p, tail, c.readBuf.Length);
  }
}
