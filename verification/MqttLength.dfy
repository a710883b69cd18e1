// The variable-length integers of uiot/mqtt/src/mqtt_client_common.c (section 2.2.3 of MQTT 3.1.1).
module MqttLength {
  type byte = b: int | 0 <= b < 256

  const MAX_NO_OF_REMAINING_LENGTH_BYTES := 4
  const MAX_REMAINING_LENGTH := 268435455
  const TWO_32 := 0x1_0000_0000
  const SUCCESS_RET := 0
  const FAILURE_RET := -1
  const ERR_MQTT_PACKET_READ_ERROR := -110
  const ERR_MQTT_BUFFER_TOO_SHORT := -119

  /** Seven bits a byte, least significant first; the top bit says that another byte follows. */
  function Encode(n: nat): (e: seq<byte>)
    ensures |e| >= 1
  {
    if n < 128 then [n] else [n % 128 + 128] + Encode(n / 128)
  }

  datatype Length = Decoded(value: nat, used: nat) | TooLong | Short

  /** At most `digits` bytes of `s` as a length. */
  function Decode(s: seq<byte>, digits: nat): (r: Length)
    ensures r.Decoded? ==> 1 <= r.used <= digits && r.used <= |s|
  {
    if digits == 0 then TooLong
    else if s == [] then Short
    else if s[0] < 128 then Decoded(s[0], 1)
    else After(s[0] - 128, 128, 1, Decode(s[1..], digits - 1))
  }

  /** A length of which `used` bytes, worth `value`, have been read before `rest`. */
  function After(value: nat, multiplier: nat, used: nat, rest: Length): Length {
    if rest.Decoded? then Decoded(value + multiplier * rest.value, used + rest.used) else rest
  }

  function Pow128(k: nat): (p: nat)
    ensures p >= 1
  {
    if k == 0 then 1 else 128 * Pow128(k - 1)
  }

  /** Decoding inverts encoding on what fits the given number of bytes, and on nothing else. */
  lemma {:induction false} RoundTrip(n: nat, tail: seq<byte>, digits: nat)
    ensures Decode(Encode(n) + tail, digits)
            == if n < Pow128(digits) && digits > 0 then Decoded(n, |Encode(n)|) else TooLong
    decreases digits
  {
    var s := Encode(n) + tail;
    if digits > 0 {
      if n >= 128 {
        assert s[1..] == Encode(n / 128) + tail;
        RoundTrip(n / 128, tail, digits - 1);
        Divided(n, Pow128(digits - 1));
      } else if digits == 1 {
        assert Pow128(1) == 128 * Pow128(0);
      }
    }
  }

  lemma Divided(n: nat, p: nat)
    requires p >= 1
    ensures n / 128 < p <==> n < 128 * p
  {
  }

  /** Section 2.2.3: four bytes hold exactly the numbers up to 268435455. */
  lemma FourBytesExactly(n: nat, tail: seq<byte>)
    ensures Decode(Encode(n) + tail, MAX_NO_OF_REMAINING_LENGTH_BYTES)
            == if n <= MAX_REMAINING_LENGTH then Decoded(n, |Encode(n)|) else TooLong
  {
    RoundTrip(n, tail, 4);
    assert Pow128(4) == 128 * (128 * (128 * (128 * Pow128(0))));
  }

  /** A decoded length is never longer than four bytes can say, and its own encoding is never
      longer than the bytes it was decoded from; it is those bytes exactly when the last of them
      is not a superfluous zero. */
  lemma {:induction false} Canonical(s: seq<byte>, digits: nat)
    requires Decode(s, digits).Decoded?
    ensures var d := Decode(s, digits);
            && d.value < Pow128(d.used) && |Encode(d.value)| <= d.used
            && (Encode(d.value) == s[..d.used] <==> d.used == 1 || s[d.used - 1] != 0)
  {
    var d := Decode(s, digits);
    if s[0] < 128 {
      assert s[..1] == [s[0]];
      assert Pow128(1) == 128 * Pow128(0);
    } else {
      var rest := s[1..];
      var r := Decode(rest, digits - 1);
      Canonical(rest, digits - 1);
      assert s[..d.used] == [s[0]] + rest[..r.used];
      assert rest[r.used - 1] == s[d.used - 1];
      assert d.value % 128 == s[0] - 128 && d.value / 128 == r.value;
      CanonicalMore(s, d.value, d.used, r.value, r.used);
    }
  }

  /** A further byte in front. */
  lemma CanonicalMore(s: seq<byte>, value: nat, used: nat, rest: nat, n: nat)
    requires 0 < n == used - 1 < |s| && s[0] >= 128 && value == s[0] - 128 + 128 * rest && value / 128 == rest &&
             value % 128 == s[0] - 128
    requires |Encode(rest)| <= n && (Encode(rest) == s[1..][..n] <==> n == 1 || s[used - 1] != 0)
    ensures |Encode(value)| <= used && (Encode(value) == s[..used] <==> s[used - 1] != 0)
  {
    assert s[..used] == [s[0]] + s[1..][..n];
    if rest == 0 {
      assert Encode(rest) == [0];
      assert Encode(value) == [s[0] - 128];
      assert s[1..][..n] == Encode(rest) ==> s[1] == 0 && n == 1;
    } else {
      assert Encode(value) == [s[0]] + Encode(rest);
      assert Encode(value)[1..] == Encode(rest) && s[..used][1..] == s[1..][..n];
    }
  }

  /** get_mqtt_packet_len: the room a packet needs, as the source computes it with a size_t. */
  function PacketLen(remLen: nat): (len: nat)
  {
    var n := (remLen + 1) % TWO_32;
    (n + if n < 128 then 1 else if n < 16384 then 2 else if n < 2097151 then 3 else 4) % TWO_32
  }

  lemma EncodedSize(n: nat)
    requires n < TWO_32
    ensures |Encode(n)| == if n < 128 then 1 else if n < 16384 then 2 else if n < 2097152 then 3
                           else if n <= MAX_REMAINING_LENGTH then 4 else 5
  {
    if n >= 128 {
      assert Encode(n) == [n % 128 + 128] + Encode(n / 128);
      if n >= 16384 {
        assert Encode(n / 128) == [n / 128 % 128 + 128] + Encode(n / 128 / 128);
        if n >= 2097152 {
          assert Encode(n / 128 / 128) == [n / 128 / 128 % 128 + 128] + Encode(n / 128 / 128 / 128);
          if n > MAX_REMAINING_LENGTH {
            var d := n / 128 / 128 / 128;
            assert Encode(d) == [d % 128 + 128] + Encode(d / 128);
          }
        }
      }
    }
  }

  /** The computed room is enough, and it is one byte too much at four lengths only. */
  lemma PacketLenExactly(n: nat)
    requires n <= MAX_REMAINING_LENGTH
    ensures PacketLen(n) == 1 + |Encode(n)| + n + (if n in {127, 16383, 2097150, 2097151} then 1 else 0)
  {
    EncodedSize(n);
    RoomOf(n);
    hide Encode, PacketLen;
  }

  /** Below the wrap of a size_t. */
  lemma RoomOf(n: nat)
    requires n <= MAX_REMAINING_LENGTH
    ensures PacketLen(n) == n + 1 + if n < 127 then 1 else if n < 16383 then 2 else if n < 2097150 then 3 else 4
  {
  }

  /** Past the largest length of the standard the computed room falls short of what is written. */
  lemma {:induction false} PacketLenFallsShort(n: nat)
    requires n > MAX_REMAINING_LENGTH
    ensures PacketLen(n) < 1 + |Encode(n)| + n
  {
    var a, b, c := n / 128, n / 128 / 128, n / 128 / 128 / 128;
    assert Encode(n) == [n % 128 + 128] + Encode(a) && Encode(a) == [a % 128 + 128] + Encode(b);
    assert Encode(b) == [b % 128 + 128] + Encode(c) && Encode(c) == [c % 128 + 128] + Encode(c / 128);
  }

  /** What a packet with a body of `n` bytes takes up: the length field announces the low 32 bits. */
  function Size(n: nat): (size: nat)
    ensures size > n
  {
    1 + |Encode(n % TWO_32)| + n
  }

  /** For a body that the standard allows the computed room is the size, or one byte more. */
  lemma SizeOf(n: nat)
    requires n <= MAX_REMAINING_LENGTH
    ensures Size(n) == 1 + |Encode(n)| + n && Size(n) <= PacketLen(n) <= Size(n) + 1
  {
    PacketLenExactly(n);
    SizeIs(n);
    hide *;
  }

  lemma SizeIs(n: nat)
    requires n < TWO_32
    ensures Size(n) == 1 + |Encode(n)| + n
  {
    hide Encode;
    Low32(n);
  }

  lemma Low32(n: nat)
    requires n < TWO_32
    ensures n % TWO_32 == n
  {
    assert n / TWO_32 == 0;
  }

  /** A packet that has passed the length check stays inside its buffer if and only if its body is
      not longer than the standard allows, or six bytes shorter than the buffer all the same. */
  lemma InsideExactly(n: nat, bufLen: nat)
    requires PacketLen(n) <= bufLen < TWO_32
    ensures Size(n) <= bufLen <==> n <= MAX_REMAINING_LENGTH || n + 6 <= bufLen
  {
    if n <= MAX_REMAINING_LENGTH {
      PacketLenExactly(n);
    } else if n < TWO_32 {
      EncodedSize(n);
    }
  }

  /** mqtt_write_packet_rem_len: writes the bytes of `length` from `at` on. */
  method WriteRemLen(buf: array<byte>, at: nat, length: nat) returns (outLen: nat)
    requires at + |Encode(length)| <= buf.Length
    modifies buf
    ensures outLen == |Encode(length)|
    ensures buf[..at + outLen] == old(buf[..at]) + Encode(length) && buf[at + outLen..] == old(buf[at + outLen..])
  {
    outLen := 0;
    var rest := length;
    ghost var done: seq<byte> := [];
    while true
      invariant done + Encode(rest) == Encode(length) && outLen == |done|
      invariant buf[..at + outLen] == old(buf[..at]) + done &&
                buf[at + |Encode(length)|..] == old(buf[at + |Encode(length)|..])
      decreases rest
    {
      var encodeByte: byte := rest % 128;
      ghost var before, now := rest, buf[..at + outLen];
      rest := rest / 128;
      if rest > 0 {
        encodeByte := encodeByte + 128;
      }
      assert Encode(before) == [encodeByte] + (if rest > 0 then Encode(rest) else []);
      buf[at + outLen] := encodeByte;
      outLen := outLen + 1;
      assert buf[..at + outLen] == now + [encodeByte];
      done := done + [encodeByte];
      if rest == 0 {
        assert done == Encode(length);
        break;
      }
    }
  }

  /** mqtt_read_packet_rem_len_form_buf: decodes from `at` on; a read behind the last byte of the
      buffer is not described by the source, and ends the decoding here. */
  method ReadRemLen(buf: seq<byte>, at: nat) returns (ret: int, value: nat, used: nat)
    requires at <= |buf|
    ensures match Decode(buf[at..], MAX_NO_OF_REMAINING_LENGTH_BYTES)
            case Decoded(v, u) => ret == SUCCESS_RET && value == v && used == u
            case TooLong => ret == ERR_MQTT_PACKET_READ_ERROR
            case Short => ret == FAILURE_RET
  {
    hide Decode, After;
    var multiplier: nat := 1;
    ret, value, used := SUCCESS_RET, 0, 0;
    NothingYet(buf[at..]);
    while true
      invariant 0 <= used <= 4 && at + used <= |buf|
      invariant Decode(buf[at..], 4) == After(value, multiplier, used, Decode(buf[at + used..], 4 - used))
      decreases 4 - used
    {
      ghost var rest := buf[at + used..];
      NoMore(value, multiplier, used, rest, 4 - used);
      used := used + 1;
      if used > MAX_NO_OF_REMAINING_LENGTH_BYTES {
        return ERR_MQTT_PACKET_READ_ERROR, value, used;
      }
      if at + used > |buf| {
        return FAILURE_RET, value, used;
      }
      var c := buf[at + used - 1];
      assert rest[1..] == buf[at + used..] && rest[0] == c;
      Unrolled(value, multiplier, used, c, rest, 5 - used);
      value := value + (c as int) % 128 * multiplier;
      multiplier := multiplier * 128;
      if c < 128 {
        break;
      }
    }
  }

  lemma NothingYet(s: seq<byte>)
    ensures Decode(s, 4) == After(0, 1, 0, Decode(s, 4))
  {
  }

  lemma NoMore(value: nat, multiplier: nat, used: nat, s: seq<byte>, digits: nat)
    ensures digits == 0 ==> After(value, multiplier, used, Decode(s, digits)) == TooLong
    ensures digits > 0 && s == [] ==> After(value, multiplier, used, Decode(s, digits)) == Short
  {
  }

  /** One byte more has been read. */
  lemma Unrolled(value: nat, multiplier: nat, used: nat, c: byte, s: seq<byte>, digits: nat)
    requires s != [] && s[0] == c && digits > 0 && used >= 1
    ensures After(value, multiplier, used - 1, Decode(s, digits))
            == if c < 128 then Decoded(value + (c as int) % 128 * multiplier, used)
               else After(value + (c as int) % 128 * multiplier, multiplier * 128, used, Decode(s[1..], digits - 1))
  {
    var d := Decode(s[1..], digits - 1);
    if c >= 128 && d.Decoded? {
      Distributed(value, multiplier, c, d.value);
    }
  }

  lemma Distributed(value: nat, multiplier: nat, c: byte, v: nat)
    requires c >= 128
    ensures value + multiplier * (c - 128 + 128 * v) == value + (c as int) % 128 * multiplier + multiplier * 128 * v
  {
    assert multiplier * (c - 128 + 128 * v) == multiplier * (c - 128) + multiplier * (128 * v);
    assert multiplier * (128 * v) == multiplier * 128 * v;
  }
}
