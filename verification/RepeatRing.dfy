// Duplicate suppression: the ring of packet ids and _handle_publish_packet of
// uiot/mqtt/src/mqtt_client_common.c.
module RepeatRing {
  const MQTT_MAX_REPEAT_BUF_LEN := 50
  const SUCCESS_RET := 0

  type uint16 = n: int | 0 <= n < 65536

  /** The last ids inserted, oldest first; at most as many as the ring has slots. */
  function Window(history: seq<uint16>): (w: seq<uint16>)
    ensures |w| == if |history| < MQTT_MAX_REPEAT_BUF_LEN then |history| else MQTT_MAX_REPEAT_BUF_LEN
  {
    if |history| < MQTT_MAX_REPEAT_BUF_LEN then history else history[|history| - MQTT_MAX_REPEAT_BUF_LEN..]
  }

  /** An id counts as seen if it is in the window; an id of 0 also while the ring is not full. */
  predicate Seen(history: seq<uint16>, id: uint16) {
    id in Window(history) || (id == 0 && |history| < MQTT_MAX_REPEAT_BUF_LEN)
  }

  /** The insertions after one more. */
  function Inserted(history: seq<uint16>, id: uint16): (h: seq<uint16>)
    ensures history <= h
  {
    if id != 0 && id in Window(history) then history else history + [id]
  }

  /** Among any insertions that are in the window together, no id other than 0 occurs twice. */
  ghost predicate Distinct(history: seq<uint16>) {
    forall i, j :: 0 <= i < j < |history| && j - i < MQTT_MAX_REPEAT_BUF_LEN && history[i] != 0 ==>
        history[i] != history[j]
  }

  function Zeros(n: nat): (z: seq<uint16>)
    ensures |z| == n && forall k :: 0 <= k < n ==> z[k] == 0
  {
    if n == 0 then [] else [0] + Zeros(n - 1)
  }

  /** The slots, oldest first. */
  function Slots(history: seq<uint16>): (s: seq<uint16>)
    ensures |s| == MQTT_MAX_REPEAT_BUF_LEN
  {
    (Zeros(MQTT_MAX_REPEAT_BUF_LEN) + history)[|history|..]
  }

  /** One arriving PUBLISH and whether its handler succeeds. */
  datatype Arrival = Arrival(id: uint16, qos: nat, handled: bool, acked: bool)

  class Client {
    const repeatBuf: array<uint16>
    var cursor: nat
    var delivered: seq<uint16>
    var acked: seq<uint16>
    ghost var history: seq<uint16>

    /** The cursor is a static variable: it starts where an earlier connection has left it. */
    constructor (cursor: nat)
      requires cursor < MQTT_MAX_REPEAT_BUF_LEN
      ensures Valid() && history == [] && delivered == [] && acked == [] && fresh(repeatBuf)
    {
      repeatBuf := new uint16[MQTT_MAX_REPEAT_BUF_LEN](_ => 0);
      this.cursor, delivered, acked, history := cursor, [], [], [];
      new;
      Rotated([], repeatBuf[..], cursor);
    }

    /** The slots from the cursor on, round the ring, are the last insertions since the reset. */
    ghost predicate Valid()
      reads this, repeatBuf
    {
      && repeatBuf.Length == MQTT_MAX_REPEAT_BUF_LEN && cursor < MQTT_MAX_REPEAT_BUF_LEN
      && repeatBuf[cursor..] + repeatBuf[..cursor] == Slots(history) && Distinct(history)
    }

    /** reset_repeat_packet_id_buffer: the cursor stays. */
    method Reset()
      requires Valid()
      modifies repeatBuf, `history
      ensures Valid() && history == [] && cursor == old(cursor)
    {
      for i := 0 to MQTT_MAX_REPEAT_BUF_LEN
        invariant forall k :: 0 <= k < i ==> repeatBuf[k] == 0
      {
        repeatBuf[i] := 0;
      }
      history := [];
      Rotated([], repeatBuf[..], cursor);
    }

    /** _get_packet_id_in_repeat_buf */
    method Get(id: uint16) returns (found: int)
      requires Valid()
      ensures found == if Seen(history, id) then id else -1
    {
      SeenInSlots(history, id);
      for i := 0 to MQTT_MAX_REPEAT_BUF_LEN
        invariant id !in repeatBuf[..i]
      {
        if id == repeatBuf[i] {
          InRotation(repeatBuf[..], cursor, id);
          return id;
        }
      }
      assert repeatBuf[..MQTT_MAX_REPEAT_BUF_LEN] == repeatBuf[..];
      InRotation(repeatBuf[..], cursor, id);
      found := -1;
    }

    /** _add_packet_id_to_repeat_buf */
    method Add(id: uint16)
      requires Valid()
      modifies this`cursor, this`history, repeatBuf
      ensures Valid() && history == Inserted(old(history), id)
    {
      hide Slots;
      var found := Get(id);
      StaysDistinct(history, id);
      hide Distinct, Window;
      if found > 0 {
        return;
      }
      ghost var was := repeatBuf[..];
      repeatBuf[cursor] := id;
      OneIn(was, cursor, id, repeatBuf[..]);
      SlotsShift(history, id);
      history := history + [id];
      cursor := cursor + 1;
      if cursor >= MQTT_MAX_REPEAT_BUF_LEN {
        cursor := cursor % MQTT_MAX_REPEAT_BUF_LEN;
      }
    }

    /** _handle_publish_packet for a parsed packet: above QoS 0 it is delivered just if its id has
        not been seen, and acknowledged also if it has. */
    method HandlePublish(a: Arrival) returns (ret: int)
      requires Valid()
      modifies this, repeatBuf
      ensures Valid()
      ensures delivered == old(delivered) + if a.qos == 0 || !Seen(old(history), a.id) then [a.id] else []
      ensures var through := a.qos > 0 && (Seen(old(history), a.id) || a.handled);
              && history == (if through then Inserted(old(history), a.id) else old(history))
              && acked == old(acked) + (if through then [a.id] else [])
      ensures ret == SUCCESS_RET <==>
                if a.qos == 0 then a.handled else a.acked && (Seen(old(history), a.id) || a.handled)
    {
      if a.qos == 0 {
        delivered := delivered + [a.id];
        return if a.handled then SUCCESS_RET else -1;
      }
      var repeatId := Get(a.id);
      if repeatId < 0 {
        delivered := delivered + [a.id];
        if !a.handled {
          return -1;
        }
      }
      Add(a.id);
      acked := acked + [a.id];
      ret := if a.acked then SUCCESS_RET else -1;
    }
  }

  lemma Rotated(history: seq<uint16>, buf: seq<uint16>, cursor: nat)
    requires |buf| == MQTT_MAX_REPEAT_BUF_LEN && cursor < |buf| && history == []
    requires forall k :: 0 <= k < |buf| ==> buf[k] == 0
    ensures buf[cursor..] + buf[..cursor] == Slots(history)
  {
  }

  lemma InRotation(buf: seq<uint16>, cursor: nat, id: uint16)
    requires cursor <= |buf|
    ensures id in buf <==> id in buf[cursor..] + buf[..cursor]
  {
    assert buf == buf[..cursor] + buf[cursor..];
  }

  lemma SeenInSlots(history: seq<uint16>, id: uint16)
    ensures Seen(history, id) <==> id in Slots(history)
  {
    var z, n := Zeros(MQTT_MAX_REPEAT_BUF_LEN), |history|;
    if n < MQTT_MAX_REPEAT_BUF_LEN {
      assert Slots(history) == z[n..] + history;
      assert z[n..][0] == 0;
    } else {
      assert Slots(history) == Window(history);
    }
  }

  lemma SlotsShift(history: seq<uint16>, id: uint16)
    ensures Slots(history + [id]) == Slots(history)[1..] + [id]
  {
  }

  /** Writing at the cursor replaces the oldest slot by the newest. */
  lemma OneIn(buf: seq<uint16>, cursor: nat, id: uint16, buf': seq<uint16>)
    requires cursor < |buf| && buf' == buf[cursor := id]
    ensures buf'[cursor + 1..] + buf'[..cursor + 1] == (buf[cursor..] + buf[..cursor])[1..] + [id]
    ensures cursor + 1 == |buf| ==> buf'[0..] + buf'[..0] == (buf[cursor..] + buf[..cursor])[1..] + [id]
  {
  }

  lemma StaysDistinct(history: seq<uint16>, id: uint16)
    requires Distinct(history)
    ensures Distinct(Inserted(history, id))
  {
    var h := Inserted(history, id);
    WindowHolds(history);
    forall i, j | 0 <= i < j < |h| && j - i < MQTT_MAX_REPEAT_BUF_LEN && h[i] != 0
      ensures h[i] != h[j]
    {
      if j == |history| {
        assert h[i] in Window(history);
      }
    }
  }

  lemma WindowHolds(history: seq<uint16>)
    ensures forall k :: 0 <= k < |history| && |history| - k <= MQTT_MAX_REPEAT_BUF_LEN ==> history[k] in Window(history)
  {
    var w := Window(history);
    forall k | 0 <= k < |history| && |history| - k <= MQTT_MAX_REPEAT_BUF_LEN
      ensures history[k] in w
    {
      assert w[k - (|history| - |w|)] == history[k];
    }
  }

  // ----- whole runs -----

  /** The insertions after the first `n` arrivals. */
  function After(arrivals: seq<Arrival>, n: nat): seq<uint16>
    requires n <= |arrivals|
  {
    if n == 0 then []
    else
      var h, a := After(arrivals, n - 1), arrivals[n - 1];
      if a.qos > 0 && (Seen(h, a.id) || a.handled) then Inserted(h, a.id) else h
  }

  predicate DeliveredAt(arrivals: seq<Arrival>, i: nat)
    requires i < |arrivals|
  {
    arrivals[i].qos > 0 && arrivals[i].handled && !Seen(After(arrivals, i), arrivals[i].id)
  }

  lemma {:induction false} AfterGrows(arrivals: seq<Arrival>, i: nat, j: nat)
    requires i <= j <= |arrivals|
    ensures After(arrivals, i) <= After(arrivals, j)
    decreases j - i
  {
    if i < j {
      AfterGrows(arrivals, i, j - 1);
    }
  }

  lemma {:induction false} AlwaysDistinct(arrivals: seq<Arrival>, n: nat)
    requires n <= |arrivals|
    ensures Distinct(After(arrivals, n))
  {
    if n > 0 {
      AlwaysDistinct(arrivals, n - 1);
      StaysDistinct(After(arrivals, n - 1), arrivals[n - 1].id);
    }
  }

  /** Between two deliveries of the same id at least 50 other insertions lie, and those within any
      window are distinct. */
  lemma RedeliveredOnlyAfterFifty(arrivals: seq<Arrival>, i: nat, j: nat)
    requires i < j < |arrivals| && arrivals[i].id == arrivals[j].id && DeliveredAt(arrivals, i) &&
             DeliveredAt(arrivals, j)
    ensures |After(arrivals, j)| - |After(arrivals, i + 1)| >= MQTT_MAX_REPEAT_BUF_LEN
    ensures After(arrivals, i + 1) <= After(arrivals, j) && Distinct(After(arrivals, j))
  {
    var id, h, g := arrivals[i].id, After(arrivals, i + 1), After(arrivals, j);
    AfterGrows(arrivals, i + 1, j);
    AlwaysDistinct(arrivals, j);
    assert h == After(arrivals, i) + [id];
    assert g[|h| - 1] == id;
    WindowHolds(g);
  }

  /** A run of the client is this function of its arrivals. */
  method Receive(arrivals: seq<Arrival>, cursor: nat) returns (c: Client)
    requires cursor < MQTT_MAX_REPEAT_BUF_LEN
    ensures c.Valid() && c.history == After(arrivals, |arrivals|)
  {
    c := new Client(cursor);
    for i := 0 to |arrivals|
      invariant c.Valid() && fresh(c) && fresh(c.repeatBuf) && c.history == After(arrivals, i)
    {
      var _ := c.HandlePublish(arrivals[i]);
    }
  }
}
