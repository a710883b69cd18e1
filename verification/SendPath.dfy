// Sending: send_mqtt_packet of uiot/mqtt/src/mqtt_client_common.c and the request writer of
// uiot/utils/utils_httpc.c, over a network that takes as much of each write as it likes.
module SendPath {
  import opened MqttLength

  const ERR_HTTP_CLOSED := -3
  const ERR_HTTP_CONN_ERROR := -8
  const HTTP_CLIENT_SEND_BUF_SIZE := 1024

  /** How send_mqtt_packet fails. */
  type SendError = r: int | r == FAILURE_RET || r == ERR_MQTT_BUFFER_TOO_SHORT witness FAILURE_RET

  /** How one write turns out. When there is none left, the timer has expired. */
  datatype Write = Takes(n: nat) | Broken

  function Min(a: int, b: int): int { if a <= b then a else b }

  /** What the first `k` writes take if each is offered `length` bytes; -1 once one has broken. */
  function Total(plan: seq<Write>, length: nat, k: nat): (t: int)
    requires k <= |plan|
    ensures t >= -1
  {
    if k == 0 then 0
    else
      var t := Total(plan, length, k - 1);
      if t < 0 || plan[k - 1].Broken? then -1 else t + Min(plan[k - 1].n, length)
  }

  lemma {:induction false} TotalGrows(plan: seq<Write>, length: nat, j: nat, k: nat)
    requires j <= k <= |plan|
    ensures Total(plan, length, k) >= 0 ==> 0 <= Total(plan, length, j) <= Total(plan, length, k)
    decreases k - j
  {
    if j < k {
      TotalGrows(plan, length, j, k - 1);
    }
  }

  /** Some writes from the first on take exactly `length` bytes between them. */
  ghost predicate Hits(plan: seq<Write>, length: nat) {
    exists k :: 0 <= k <= |plan| && Total(plan, length, k) == length
  }

  /** What the writes take until they come to the length, one of them breaks or the timer expires. */
  function Taken(plan: seq<Write>, length: nat): (n: nat)
    ensures n == 0 || n < 2 * length
  {
    TakenFrom(plan, length, 0)
  }

  function TakenFrom(plan: seq<Write>, length: nat, sent: nat): (n: nat)
    ensures n >= sent && (n == sent || n < 2 * length)
  {
    if sent >= length || plan == [] || plan[0].Broken? then sent
    else TakenFrom(plan[1..], length, sent + Min(plan[0].n, length))
  }

  /** send_mqtt_packet of the front of a buffer of `bufLen` bytes; `buf` is the memory from the front of
      the buffer on. Each write is offered `length` bytes again, not what is left of them, so that it
      may reach behind the buffer. The wire gets the bytes of the memory in order; the result is
      success exactly when the writes come to the length of the packet, and then the wire got the
      packet and nothing else. */
  method SendPacket(buf: array<byte>, bufLen: nat, length: nat, plan: seq<Write>, wire: seq<byte>)
    returns (ret: int, wire': seq<byte>)
    requires bufLen <= buf.Length && (length < bufLen ==> 2 * length <= buf.Length)
    ensures length >= bufLen ==> ret == ERR_MQTT_BUFFER_TOO_SHORT && wire' == wire
    ensures length < bufLen ==>
              && wire' == wire + buf[..Taken(plan, length)]
              && ret == (if Hits(plan, length) then SUCCESS_RET else FAILURE_RET)
              && (ret == SUCCESS_RET ==> wire' == wire + buf[..length])
  {
    wire' := wire;
    if length >= bufLen {
      return ERR_MQTT_BUFFER_TOO_SHORT, wire';
    }
    hide Hits, Total, TakenFrom;
    ghost var memory := buf[..];
    var sent, i := 0, 0;
    assert Total(plan, length, 0) == 0 && plan[0..] == plan by { NothingTaken(plan, length); }
    while sent < length && i < |plan|
      invariant 0 <= i <= |plan| && 0 <= sent == Total(plan, length, i)
      invariant TakenFrom(plan[i..], length, sent) == Taken(plan, length) && wire' == wire + memory[..sent]
      invariant forall k :: 0 <= k < i ==> Total(plan, length, k) < length
    {
      NextWrite(plan, length, i, sent);
      if plan[i].Broken? {
        NoHit(plan, length, i + 1);
        return FAILURE_RET, wire';
      }
      var sendLen := Min(plan[i].n, length);
      assert buf[sent..sent + sendLen] == memory[sent..sent + sendLen];
      wire' := wire' + buf[sent..sent + sendLen];
      Appended(wire, memory, sent, sendLen);
      sent := sent + sendLen;
      i := i + 1;
    }
    if sent == length {
      Hit(plan, length, i);
      AllTaken(plan[i..], length, sent);
      return SUCCESS_RET, wire';
    }
    AllTaken(plan[i..], length, sent);
    NoHit(plan, length, i);
    ret := FAILURE_RET;
  }

  lemma Appended(wire: seq<byte>, memory: seq<byte>, sent: nat, n: nat)
    requires sent + n <= |memory|
    ensures wire + memory[..sent] + memory[sent..sent + n] == wire + memory[..sent + n]
  {
  }

  /** A first write that takes all settles the packet; one that breaks, or none at all, does not. */
  lemma FirstWriteDecides(plan: seq<Write>, length: nat)
    requires 0 < length
    ensures plan != [] && plan[0].Takes? && plan[0].n >= length ==> Hits(plan, length)
    ensures plan == [] || plan[0].Broken? ==> !Hits(plan, length)
  {
    if plan != [] && plan[0].Takes? && plan[0].n >= length {
      assert Total(plan, length, 0) == 0;
      Hit(plan, length, 1);
    } else if plan == [] {
      NoHit(plan, length, 0);
    } else if plan[0].Broken? {
      NoHit(plan, length, 1);
    }
  }

  lemma NothingTaken(plan: seq<Write>, length: nat)
    ensures Total(plan, length, 0) == 0 && plan[0..] == plan
  {
  }

  lemma NextWrite(plan: seq<Write>, length: nat, i: nat, sent: nat)
    requires i < |plan| && Total(plan, length, i) == sent < length
    ensures plan[i].Broken? ==> Total(plan, length, i + 1) == -1 && TakenFrom(plan[i..], length, sent) == sent
    ensures plan[i].Takes? ==>
              var now := sent + Min(plan[i].n, length);
              Total(plan, length, i + 1) == now &&
                TakenFrom(plan[i..], length, sent) == TakenFrom(plan[i + 1..], length, now)
  {
    assert plan[i..][1..] == plan[i + 1..];
  }

  lemma AllTaken(plan: seq<Write>, length: nat, sent: nat)
    requires sent >= length || plan == []
    ensures TakenFrom(plan, length, sent) == sent
  {
  }

  /** However the writes go, no byte from behind a buffer of `size` bytes is sent, if and only if the
      buffer is nearly twice as long as the packet. */
  lemma StaysInsideExactly(length: nat, size: nat)
    requires 0 < length < size
    ensures (forall plan: seq<Write> :: Taken(plan, length) <= size) <==> 2 * length - 1 <= size
  {
    var plan := [Takes(length - 1), Takes(length)];
    if length > 1 {
      assert plan[1..] == [Takes(length)] && plan[1..][1..] == [];
      assert TakenFrom(plan[1..], length, length - 1) == TakenFrom([], length, 2 * length - 1) == 2 * length - 1;
      assert Taken(plan, length) == 2 * length - 1;
    }
  }

  lemma Hit(plan: seq<Write>, length: nat, i: nat)
    requires i <= |plan| && Total(plan, length, i) == length
    ensures Hits(plan, length)
  {
  }

  /** Before the `i`-th write there was less, after it there is something else. */
  lemma NoHit(plan: seq<Write>, length: nat, i: nat)
    requires i <= |plan| && forall k :: 0 <= k < i ==> Total(plan, length, k) < length
    requires Total(plan, length, i) == -1 || Total(plan, length, i) > length ||
             (i == |plan| && Total(plan, length, i) != length)
    ensures !Hits(plan, length)
  {
    forall k | 0 <= k <= |plan|
      ensures Total(plan, length, k) != length
    {
      if i <= k {
        TotalGrows(plan, length, i, k);
      }
    }
  }

  /** A first write that takes only a part, followed by one that takes all it is offered, sends the
      packet and the first bytes behind it, and is reported as a failure. */
  lemma SecondWriteOvershoots(first: nat, length: nat, more: seq<Write>)
    requires 0 < first < length
    ensures !Hits([Takes(first), Takes(length)] + more, length)
  {
    var plan := [Takes(first), Takes(length)] + more;
    assert Total(plan, length, 0) == 0 && Total(plan, length, 1) == first && Total(plan, length, 2) == first + length;
    NoHit(plan, length, 2);
  }

  // ----- the request writer of utils_httpc.c -----

  /** The send buffer of _http_send_header, what the connection has taken, and the results of the
      coming writes; when there are none left every write is taken whole. What is sent does not steer
      the writer, so `T` may be anything: a byte, or a byte that carries its position along. */
  datatype Tx<T> = Tx(buf: seq<T>, idx: nat, wire: seq<T>, plan: seq<int>)

  ghost predicate Ready<T>(s: Tx<T>) {
    |s.buf| == HTTP_CLIENT_SEND_BUF_SIZE && s.idx < HTTP_CLIENT_SEND_BUF_SIZE
  }

  /** The result of the next write, which is offered `n` bytes. */
  function Outcome(plan: seq<int>, n: nat): (r: int)
    ensures r <= n
  {
    if plan == [] then n else Min(plan[0], n)
  }

  function Drop(plan: seq<int>, n: nat): seq<int> { if n >= |plan| then [] else plan[n..] }

  /** net.write of the first `n` bytes of the buffer. */
  function Written<T>(s: Tx<T>, n: nat): Tx<T>
    requires n <= |s.buf|
  {
    var r := Outcome(s.plan, n);
    s.(wire := s.wire + s.buf[..if r < 0 then 0 else r], plan := Drop(s.plan, 1))
  }

  /** _utils_fill_tx_buffer from position `at` of the buffer on; where it fails `idx` stays. */
  function Filled<T>(s: Tx<T>, at: nat, piece: seq<T>): (r: (int, Tx<T>))
    requires Ready(s) && at < HTTP_CLIENT_SEND_BUF_SIZE
    ensures Ready(r.1) && r.0 <= SUCCESS_RET
    decreases |piece|
  {
    var room := HTTP_CLIENT_SEND_BUF_SIZE - at;
    if |piece| < room then
      (SUCCESS_RET, s.(buf := s.buf[..at] + piece + s.buf[at + |piece|..], idx := at + |piece|))
    else
      var n := Outcome(s.plan, HTTP_CLIENT_SEND_BUF_SIZE);
      var t := Written(s.(buf := s.buf[..at] + piece[..room]), HTTP_CLIENT_SEND_BUF_SIZE);
      if n < 0 then (n, t)
      else if n == 0 then (ERR_HTTP_CLOSED, t)
      else if n < HTTP_CLIENT_SEND_BUF_SIZE then (ERR_HTTP_CONN_ERROR, t)
      else Filled(t, 0, piece[room..])
  }

  /** One turn of the loop. */
  lemma FilledOnce<T>(s: Tx<T>, at: nat, piece: seq<T>)
    requires Ready(s) && at < HTTP_CLIENT_SEND_BUF_SIZE
    ensures var room := HTTP_CLIENT_SEND_BUF_SIZE - at;
            if |piece| < room then
              Filled(s, at, piece)
              == (SUCCESS_RET, s.(buf := s.buf[..at] + piece[..|piece|] + s.buf[at + |piece|..], idx := at + |piece|))
            else
              var n := Outcome(s.plan, HTTP_CLIENT_SEND_BUF_SIZE);
              var buf := s.buf[..at] + piece[..room] + s.buf[at + room..];
              var t := Written(s.(buf := buf), HTTP_CLIENT_SEND_BUF_SIZE);
              && Ready(t)
              && Filled(s, at, piece) == (if n < 0 then (n, t)
                                          else if n == 0 then (ERR_HTTP_CLOSED, t)
                                          else if n < HTTP_CLIENT_SEND_BUF_SIZE then (ERR_HTTP_CONN_ERROR, t)
                                          else Filled(t, 0, piece[room..]))
              && (|piece| == room ==> Filled(t, 0, piece[room..]) == (SUCCESS_RET, t.(idx := 0)))
  {
    assert piece[..|piece|] == piece;
    var room := HTTP_CLIENT_SEND_BUF_SIZE - at;
    if |piece| >= room {
      assert s.buf[..at] + piece[..room] + s.buf[at + room..] == s.buf[..at] + piece[..room];
      var t := Written(s.(buf := s.buf[..at] + piece[..room]), HTTP_CLIENT_SEND_BUF_SIZE);
      if |piece| == room {
        assert t.buf[..0] + piece[room..] + t.buf[0 + |piece[room..]|..] == t.buf;
      }
    }
  }

  lemma FilledNothing<T>(s: Tx<T>, at: nat)
    requires Ready(s) && at < HTTP_CLIENT_SEND_BUF_SIZE
    ensures Filled(s, at, []) == (SUCCESS_RET, s.(idx := at))
  {
    assert s.buf[..at] + [] + s.buf[at + 0..] == s.buf;
  }

  /** The pieces after the first one: their results are not looked at. */
  function FilledAll<T>(s: Tx<T>, pieces: seq<seq<T>>): (t: Tx<T>)
    requires Ready(s)
    ensures Ready(t)
    decreases |pieces|
  {
    if pieces == [] then s else FilledAll(Filled(s, s.idx, pieces[0]).1, pieces[1..])
  }

  /** _http_send_header over its pieces. */
  function Sends<T>(s: Tx<T>, pieces: seq<seq<T>>): (int, Tx<T>)
    requires Ready(s) && pieces != []
  {
    var (rc, t) := Filled(s, s.idx, pieces[0]);
    if rc < 0 then (ERR_HTTP_CONN_ERROR, t)
    else
      var u := FilledAll(t, pieces[1..]);
      var n := Outcome(u.plan, u.idx);
      (if n < 0 then ERR_HTTP_CONN_ERROR else if n == 0 then ERR_HTTP_CLOSED else SUCCESS_RET, Written(u, u.idx))
  }

  class Sender<T(0)> {
    const sendBuf: array<T>
    var idx: nat
    var wire: seq<T>
    var plan: seq<int>

    constructor (plan: seq<int>)
      ensures Valid() && idx == 0 && wire == [] && this.plan == plan && fresh(sendBuf)
    {
      sendBuf := new T[HTTP_CLIENT_SEND_BUF_SIZE];
      idx, wire, this.plan := 0, [], plan;
    }

    ghost function View(): Tx<T>
      reads this, sendBuf
    {
      Tx(sendBuf[..], idx, wire, plan)
    }

    ghost predicate Valid()
      reads this, sendBuf
    {
      Ready(View())
    }

    /** net.write of the first `n` bytes of the buffer. */
    method NetWrite(n: nat) returns (ret: int)
      requires n <= sendBuf.Length
      modifies `wire, `plan
      ensures View() == Written(old(View()), n) && ret == Outcome(old(plan), n)
    {
      ret := n;
      if plan != [] {
        ret := Min(plan[0], n);
        plan := plan[1..];
      }
      wire := wire + sendBuf[..if ret < 0 then 0 else ret];
    }

    /** _utils_fill_tx_buffer: appends a piece, a length of 0 standing for the whole string. */
    method Fill(piece: seq<T>, length: nat) returns (ret: int)
      requires Valid() && length <= |piece|
      modifies this, sendBuf
      ensures Valid()
      ensures (ret, View()) == Filled(old(View()), old(idx), piece[..if length == 0 then |piece| else length])
    {
      var len: nat := if length == 0 then |piece| else length;
      var at: nat, written: nat := idx, 0;
      ghost var all := piece[..len];
      assert all[0..] == all;
      hide Filled, Written;
      while true
        invariant at < HTTP_CLIENT_SEND_BUF_SIZE && written + len == |all| && Valid() && idx == old(idx)
        invariant Filled(View(), at, all[written..]) == Filled(old(View()), old(idx), all)
        decreases len
      {
        assert all[written..] == piece[written..written + len];
        ret, at, written, len := FillBlock(piece, at, written, len);
        if ret < 0 {
          return;
        }
        assert all[written..] == piece[written..written + len];
        if len == 0 {
          break;
        }
      }
      idx := at;
    }

    /** One turn of the loop: as much as fits, and the block goes out when it is full. */
    method FillBlock(piece: seq<T>, at: nat, written: nat, len: nat)
      returns (ret: int, at': nat, written': nat, len': nat)
      requires Valid() && at < HTTP_CLIENT_SEND_BUF_SIZE && written + len <= |piece|
      modifies `wire, `plan, sendBuf
      ensures Valid() && ret <= SUCCESS_RET && written <= written' && written' + len' == written + len
      ensures ret < 0 ==> Filled(old(View()), at, piece[written..written + len]) == (ret, View())
      ensures ret == SUCCESS_RET ==>
                && at' < HTTP_CLIENT_SEND_BUF_SIZE && (len' < len || len' == 0)
                && Filled(View(), at', piece[written'..written' + len'])
                     == Filled(old(View()), at, piece[written..written + len])
                && (len' == 0 ==> Filled(old(View()), at, piece[written..written + len]) == (ret, View().(idx := at')))
    {
      hide Filled, Written;
      ghost var s, rest := View(), piece[written..written + len];
      FilledOnce(s, at, rest);
      var cp := if HTTP_CLIENT_SEND_BUF_SIZE - at >= len then len else HTTP_CLIENT_SEND_BUF_SIZE - at;
      Put(at, piece, written, cp);
      assert piece[written..written + cp] == rest[..cp] && piece[written + cp..written + len] == rest[cp..];
      at', written', len' := at + cp, written + cp, len - cp;
      if at' == HTTP_CLIENT_SEND_BUF_SIZE {
        var n := NetWrite(HTTP_CLIENT_SEND_BUF_SIZE);
        if n < 0 {
          return n, at', written', len';
        } else if n != HTTP_CLIENT_SEND_BUF_SIZE {
          return if n == 0 then ERR_HTTP_CLOSED else ERR_HTTP_CONN_ERROR, at', written', len';
        }
        at' := at' - n;
      } else {
        FilledNothing(View(), at');
        assert rest[cp..] == [];
      }
      ret := SUCCESS_RET;
    }

    method Put(at: nat, piece: seq<T>, from: nat, n: nat)
      requires at + n <= sendBuf.Length && from + n <= |piece|
      modifies sendBuf
      ensures sendBuf[..] == old(sendBuf[..at]) + piece[from..from + n] + old(sendBuf[at + n..])
    {
      for i := 0 to n
        invariant sendBuf[..] == old(sendBuf[..at]) + piece[from..from + i] + old(sendBuf[at + i..])
      {
        sendBuf[at + i] := piece[from + i];
      }
    }

    /** _http_send_header over its pieces. The result of the first piece is looked at, those of the
        others are not; then the rest of the buffer is written. */
    method SendPieces(pieces: seq<seq<T>>) returns (ret: int)
      requires Valid() && pieces != []
      modifies this, sendBuf
      ensures (ret, View()) == Sends(old(View()), pieces)
    {
      for i := 0 to |pieces|
        invariant Valid()
        invariant i == 0 ==> View() == old(View())
        invariant i > 0 ==> Filled(old(View()), old(idx), pieces[0]).0 >= 0
        invariant i > 0 ==>
                    FilledAll(View(), pieces[i..]) == FilledAll(Filled(old(View()), old(idx), pieces[0]).1, pieces[1..])
      {
        assert pieces[i][..|pieces[i]|] == pieces[i] && (i > 0 ==> pieces[i..][1..] == pieces[i + 1..]);
        var rc := Fill(pieces[i], |pieces[i]|);
        if rc < 0 && i == 0 {
          return ERR_HTTP_CONN_ERROR;
        }
      }
      var n := NetWrite(idx);
      if n <= 0 {
        return if n == 0 then ERR_HTTP_CLOSED else ERR_HTTP_CONN_ERROR;
      }
      ret := SUCCESS_RET;
    }
  }

  // ----- when everything is sent -----

  function Concat<T>(pieces: seq<seq<T>>): seq<T> {
    if pieces == [] then [] else pieces[0] + Concat(pieces[1..])
  }

  /** The first `n` writes take their whole blocks. */
  predicate BlocksWhole(plan: seq<int>, n: nat) {
    forall i :: 0 <= i < n && i < |plan| ==> plan[i] >= HTTP_CLIENT_SEND_BUF_SIZE
  }

  function Blocks(n: nat): nat { n / HTTP_CLIENT_SEND_BUF_SIZE }

  function Rest(n: nat): nat { n % HTTP_CLIENT_SEND_BUF_SIZE }

  /** Every write of a request of `total` bytes comes back whole: the blocks, and then what is left. */
  predicate AllWhole(plan: seq<int>, total: nat) {
    BlocksWhole(plan, Blocks(total)) &&
      (Rest(total) > 0 ==> Outcome(Drop(plan, Blocks(total)), Rest(total)) == Rest(total))
  }

  lemma BlocksAdd(a: nat, b: nat)
    ensures Blocks(a + b) == Blocks(a) + Blocks(Rest(a) + b) && Rest(a + b) == Rest(Rest(a) + b)
  {
    var q, r := Rest(a) + b, Blocks(Rest(a) + b);
    assert a + b == HTTP_CLIENT_SEND_BUF_SIZE * (Blocks(a) + r) + Rest(q);
  }

  lemma WholeAdd(plan: seq<int>, m: nat, n: nat)
    ensures BlocksWhole(plan, m + n) <==> BlocksWhole(plan, m) && BlocksWhole(Drop(plan, m), n)
    ensures Drop(plan, m + n) == Drop(Drop(plan, m), n)
  {
    if BlocksWhole(plan, m) && BlocksWhole(Drop(plan, m), n) {
      forall i | 0 <= i < m + n && i < |plan|
        ensures plan[i] >= HTTP_CLIENT_SEND_BUF_SIZE
      {
        assert i >= m ==> plan[i] == Drop(plan, m)[i - m];
      }
    }
  }

  /** One piece is taken in if and only if the writes that it causes take whole blocks; then blocks
      sent and bytes kept are together what they were, and the piece. */
  lemma {:induction false} FilledWhole<T>(s: Tx<T>, at: nat, piece: seq<T>)
    requires Ready(s) && at < HTTP_CLIENT_SEND_BUF_SIZE
    ensures var (rc, t) := Filled(s, at, piece);
            var n := Blocks(at + |piece|);
            && (rc == SUCCESS_RET <==> BlocksWhole(s.plan, n))
            && (BlocksWhole(s.plan, n) ==>
                  t.idx == Rest(at + |piece|) && t.plan == Drop(s.plan, n) && s.wire <= t.wire
                  && t.wire + t.buf[..t.idx] == s.wire + s.buf[..at] + piece)
    decreases |piece|
  {
    hide Filled, Written, Outcome, BlocksWhole, Drop;
    var room := HTTP_CLIENT_SEND_BUF_SIZE - at;
    if |piece| < room {
      FilledShort(s, at, piece);
    } else {
      var rest, n := piece[room..], Blocks(|piece[room..]|);
      assert at + |piece| == HTTP_CLIENT_SEND_BUF_SIZE + |rest|;
      BlocksAdd(HTTP_CLIENT_SEND_BUF_SIZE, |rest|);
      WholeAdd(s.plan, 1, n);
      FilledBlock(s, at, piece);
      var t := Written(s.(buf := s.buf[..at] + piece[..room]), HTTP_CLIENT_SEND_BUF_SIZE);
      if BlocksWhole(s.plan, 1) {
        FilledWhole(t, 0, rest);
        assert s.buf[..at] + piece == s.buf[..at] + piece[..room] + rest;
      }
    }
  }

  lemma FilledShort<T>(s: Tx<T>, at: nat, piece: seq<T>)
    requires Ready(s) && at + |piece| < HTTP_CLIENT_SEND_BUF_SIZE
    ensures var (rc, t) := Filled(s, at, piece);
            && rc == SUCCESS_RET && t.idx == at + |piece| && t.plan == s.plan && s.wire <= t.wire
            && t.wire + t.buf[..t.idx] == s.wire + s.buf[..at] + piece
    ensures BlocksWhole(s.plan, Blocks(at + |piece|)) && Drop(s.plan, Blocks(at + |piece|)) == s.plan
    ensures Rest(at + |piece|) == at + |piece|
  {
    var t := Filled(s, at, piece).1;
    assert t.buf[..t.idx] == s.buf[..at] + piece;
  }

  /** One block goes out, and the rest of the piece follows if all of it was taken. */
  lemma FilledBlock<T>(s: Tx<T>, at: nat, piece: seq<T>)
    requires Ready(s) && at < HTTP_CLIENT_SEND_BUF_SIZE <= at + |piece|
    ensures var room := HTTP_CLIENT_SEND_BUF_SIZE - at;
            var block := s.buf[..at] + piece[..room];
            var t := Written(s.(buf := block), HTTP_CLIENT_SEND_BUF_SIZE);
            && Ready(t) && t.buf == block && t.plan == Drop(s.plan, 1) && t.idx == s.idx &&
               s.wire <= t.wire <= s.wire + block
            && if BlocksWhole(s.plan, 1) then
                 Filled(s, at, piece) == Filled(t, 0, piece[room..]) && t.wire == s.wire + block
               else
                 Filled(s, at, piece).0 < 0 && Filled(s, at, piece).1 == t && t.wire < s.wire + block
  {
    var block := s.buf[..at] + piece[..HTTP_CLIENT_SEND_BUF_SIZE - at];
    assert block[..HTTP_CLIENT_SEND_BUF_SIZE] == block;
    assert BlocksWhole(s.plan, 1) <==> Outcome(s.plan, HTTP_CLIENT_SEND_BUF_SIZE) == HTTP_CLIENT_SEND_BUF_SIZE;
  }

  ghost predicate Distinct<T(!new)>(s: seq<T>) {
    forall i, j :: 0 <= i < j < |s| ==> s[i] != s[j]
  }

  /** On the way from `s` to `t` nothing equal to `x` was sent, and none is left to send. */
  ghost predicate Unsent<T>(s: Tx<T>, t: Tx<T>, x: T) {
    s.wire <= t.wire && x !in t.wire[|s.wire|..] && t.idx <= |t.buf| && x !in t.buf[..t.idx]
  }

  /** What is neither in the buffer nor in the piece does not get sent. */
  lemma {:induction false} FilledKeepsOut<T>(s: Tx<T>, at: nat, piece: seq<T>, x: T)
    requires Ready(s) && at < HTTP_CLIENT_SEND_BUF_SIZE && x !in s.buf[..s.idx] && x !in s.buf[..at] && x !in piece
    ensures Unsent(s, Filled(s, at, piece).1, x)
    decreases |piece|
  {
    var room := HTTP_CLIENT_SEND_BUF_SIZE - at;
    if |piece| >= room {
      var block := s.buf[..at] + piece[..room];
      assert x !in block;
      var t := Written(s.(buf := block), HTTP_CLIENT_SEND_BUF_SIZE);
      assert Unsent(s, t, x);
      if Outcome(s.plan, HTTP_CLIENT_SEND_BUF_SIZE) == HTTP_CLIENT_SEND_BUF_SIZE {
        FilledKeepsOut(t, 0, piece[room..], x);
      }
    }
  }

  /** If a block is refused or cut short, its last entry is lost for good. */
  lemma {:induction false} FilledLoses<T(!new)>(s: Tx<T>, at: nat, piece: seq<T>) returns (x: T)
    requires Ready(s) && at < HTTP_CLIENT_SEND_BUF_SIZE && Distinct(s.buf[..at] + piece)
    requires !BlocksWhole(s.plan, Blocks(at + |piece|))
    ensures x in piece && Unsent(s, Filled(s, at, piece).1, x)
    decreases |piece|
  {
    hide Filled, Written, Outcome, BlocksWhole, Drop;
    var room := HTTP_CLIENT_SEND_BUF_SIZE - at;
    if |piece| < room {
      FilledShort(s, at, piece);
      assert false;
    } else {
      var rest := piece[room..];
      var all, block := s.buf[..at] + piece, s.buf[..at] + piece[..room];
      assert all == block + rest;
      assert at + |piece| == HTTP_CLIENT_SEND_BUF_SIZE + |rest|;
      BlocksAdd(HTTP_CLIENT_SEND_BUF_SIZE, |rest|);
      WholeAdd(s.plan, 1, Blocks(|rest|));
      FilledBlock(s, at, piece);
      var t := Written(s.(buf := block), HTTP_CLIENT_SEND_BUF_SIZE);
      if BlocksWhole(s.plan, 1) {
        DistinctParts(block, rest);
        assert t.buf[..0] + rest == rest;
        x := FilledLoses(t, 0, rest);
        WentOut(s, t, Filled(t, 0, rest).1, block, x);
      } else {
        x := piece[room - 1];
        assert block[HTTP_CLIENT_SEND_BUF_SIZE - 1] == x;
        DistinctParts(block, rest);
        CutShort(s, t, block);
      }
    }
  }

  lemma DistinctParts<T(!new)>(a: seq<T>, b: seq<T>)
    requires Distinct(a + b)
    ensures Distinct(a) && Distinct(b) && forall x :: x in a ==> x !in b
  {
    forall i, j | 0 <= i < j < |a|
      ensures a[i] != a[j]
    {
      assert (a + b)[i] == a[i] && (a + b)[j] == a[j];
    }
    forall i, j | 0 <= i < j < |b|
      ensures b[i] != b[j]
    {
      assert (a + b)[|a| + i] == b[i] && (a + b)[|a| + j] == b[j];
    }
    forall i, j | 0 <= i < |a| && 0 <= j < |b|
      ensures a[i] != b[j]
    {
      assert (a + b)[i] == a[i] && (a + b)[|a| + j] == b[j];
    }
  }

  /** A block before has gone out whole. */
  lemma WentOut<T>(s: Tx<T>, t: Tx<T>, u: Tx<T>, block: seq<T>, x: T)
    requires t.wire == s.wire + block && x !in block && Unsent(t, u, x)
    ensures Unsent(s, u, x)
  {
    assert u.wire[|s.wire|..] == block + u.wire[|t.wire|..];
  }

  /** Less than the whole block has gone out, and less than the whole of it stays in the buffer. */
  lemma CutShort<T(!new)>(s: Tx<T>, t: Tx<T>, block: seq<T>)
    requires Distinct(block) && s.wire <= t.wire < s.wire + block && t.buf == block && t.idx < |block|
    ensures Unsent(s, t, block[|block| - 1])
  {
    var out := t.wire[|s.wire|..];
    assert t.wire == s.wire + out && out == (s.wire + block)[|s.wire|..][..|out|] == block[..|out|];
  }

  // ----- over all pieces -----

  lemma {:induction false} AllFilledWhole<T>(s: Tx<T>, pieces: seq<seq<T>>)
    requires Ready(s) && BlocksWhole(s.plan, Blocks(s.idx + |Concat(pieces)|))
    ensures var t, total := FilledAll(s, pieces), s.idx + |Concat(pieces)|;
            && t.idx == Rest(total) && t.plan == Drop(s.plan, Blocks(total))
            && t.wire + t.buf[..t.idx] == s.wire + s.buf[..s.idx] + Concat(pieces)
    decreases |pieces|
  {
    hide Filled, BlocksWhole, Drop;
    if pieces == [] {
      BlocksAdd(s.idx, 0);
      NothingDropped(s);
    } else {
      var rest := Concat(pieces[1..]);
      FirstPiece(s, pieces);
      var u := Filled(s, s.idx, pieces[0]).1;
      AllFilledWhole(u, pieces[1..]);
      assert u.wire + u.buf[..u.idx] + rest == s.wire + s.buf[..s.idx] + Concat(pieces);
    }
  }

  lemma NothingDropped<T>(s: Tx<T>)
    requires Ready(s)
    ensures Blocks(s.idx) == 0 && Rest(s.idx) == s.idx && Drop(s.plan, 0) == s.plan
  {
  }

  /** What the first piece leaves to the others. */
  lemma FirstPiece<T>(s: Tx<T>, pieces: seq<seq<T>>)
    requires Ready(s) && pieces != []
    ensures var (rc, u) := Filled(s, s.idx, pieces[0]);
            var m, total := Blocks(s.idx + |pieces[0]|), s.idx + |Concat(pieces)|;
            && (rc == SUCCESS_RET <==> BlocksWhole(s.plan, m))
            && (BlocksWhole(s.plan, Blocks(total)) ==> BlocksWhole(s.plan, m))
            && (BlocksWhole(s.plan, m) ==>
                  var left := u.idx + |Concat(pieces[1..])|;
                  && Rest(total) == Rest(left) && s.wire <= u.wire
                  && Drop(s.plan, Blocks(total)) == Drop(u.plan, Blocks(left))
                  && (BlocksWhole(s.plan, Blocks(total)) <==> BlocksWhole(u.plan, Blocks(left)))
                  && u.wire + u.buf[..u.idx] == s.wire + s.buf[..s.idx] + pieces[0])
  {
    hide Filled, BlocksWhole, Drop;
    FilledWhole(s, s.idx, pieces[0]);
    var a, b := s.idx + |pieces[0]|, |Concat(pieces[1..])|;
    BlocksAdd(a, b);
    WholeAdd(s.plan, Blocks(a), Blocks(Rest(a) + b));
  }

  lemma {:induction false} AllFilledKeepOut<T>(s: Tx<T>, pieces: seq<seq<T>>, x: T)
    requires Ready(s) && x !in s.buf[..s.idx] && x !in Concat(pieces)
    ensures Unsent(s, FilledAll(s, pieces), x)
    decreases |pieces|
  {
    hide Filled;
    if pieces != [] {
      var u := Filled(s, s.idx, pieces[0]).1;
      FilledKeepsOut(s, s.idx, pieces[0], x);
      AllFilledKeepOut(u, pieces[1..], x);
      StillUnsent(s, u, FilledAll(s, pieces), x);
    }
  }

  lemma StillUnsent<T>(s: Tx<T>, t: Tx<T>, u: Tx<T>, x: T)
    requires s.wire <= t.wire && x !in t.wire[|s.wire|..] && Unsent(t, u, x)
    ensures Unsent(s, u, x)
  {
    assert u.wire[|s.wire|..] == t.wire[|s.wire|..] + u.wire[|t.wire|..];
  }

  lemma {:induction false} AllFilledLose<T(!new)>(s: Tx<T>, pieces: seq<seq<T>>) returns (x: T)
    requires Ready(s) && !BlocksWhole(s.plan, Blocks(s.idx + |Concat(pieces)|)) &&
             Distinct(s.buf[..s.idx] + Concat(pieces))
    ensures x in Concat(pieces) && Unsent(s, FilledAll(s, pieces), x)
    decreases |pieces|
  {
    hide Filled, BlocksWhole, Drop, Distinct, Unsent;
    if pieces == [] {
      NoBlocks(s);
      assert false;
    } else {
      var kept, rest := s.buf[..s.idx], Concat(pieces[1..]);
      var u := Filled(s, s.idx, pieces[0]).1;
      FirstPiece(s, pieces);
      assert kept + Concat(pieces) == kept + pieces[0] + rest;
      DistinctParts(kept + pieces[0], rest);
      if BlocksWhole(s.plan, Blocks(s.idx + |pieces[0]|)) {
        RestIsDistinct(s, u, kept + pieces[0], rest);
        x := AllFilledLose(u, pieces[1..]);
        StillUnsent(s, u, FilledAll(s, pieces), x);
      } else {
        x := FilledLoses(s, s.idx, pieces[0]);
        Emptied(s, u, x);
        AllFilledKeepOut(u, pieces[1..], x);
        StillUnsent(s, u, FilledAll(s, pieces), x);
      }
    }
  }

  /** What is kept and what is still to come are distinct, and none of it has been sent since `s`. */
  lemma RestIsDistinct<T(!new)>(s: Tx<T>, u: Tx<T>, all: seq<T>, rest: seq<T>)
    requires s.wire <= u.wire && u.idx <= |u.buf| && u.wire + u.buf[..u.idx] == s.wire + all && Distinct(all + rest)
    ensures Distinct(u.buf[..u.idx] + rest) && forall x :: x in rest ==> x !in u.wire[|s.wire|..]
  {
    hide Distinct;
    KeptIsTail(s, u, all);
    var out := all[..|all| - u.idx];
    assert all + rest == out + (u.buf[..u.idx] + rest);
    DistinctParts(out, u.buf[..u.idx] + rest);
  }

  lemma NoBlocks<T>(s: Tx<T>)
    requires Ready(s)
    ensures BlocksWhole(s.plan, Blocks(s.idx))
  {
  }

  lemma Emptied<T>(s: Tx<T>, u: Tx<T>, x: T)
    requires Unsent(s, u, x)
    ensures s.wire <= u.wire && x !in u.wire[|s.wire|..] && u.idx <= |u.buf| && x !in u.buf[..u.idx]
  {
  }

  /** What has been sent since `s` stands in front of what is kept. */
  lemma KeptIsTail<T>(s: Tx<T>, u: Tx<T>, all: seq<T>)
    requires s.wire <= u.wire && u.idx <= |u.buf| && u.wire + u.buf[..u.idx] == s.wire + all
    ensures u.idx <= |all| && all == all[..|all| - u.idx] + u.buf[..u.idx]
    ensures u.wire[|s.wire|..] == all[..|all| - u.idx]
  {
    var out := u.wire[|s.wire|..];
    assert u.wire == s.wire + out;
    assert s.wire + (out + u.buf[..u.idx]) == s.wire + all;
    assert (s.wire + all)[|s.wire|..] == all && (s.wire + (out + u.buf[..u.idx]))[|s.wire|..] == out + u.buf[..u.idx];
  }

  // ----- the whole request -----

  /** If every write comes back whole, the connection has got the request; it is reported as sent
      just if some of it was left for the last write. */
  lemma WholeWritesSend<T>(s: Tx<T>, pieces: seq<seq<T>>)
    requires Ready(s) && s.idx == 0 && pieces != [] && AllWhole(s.plan, |Concat(pieces)|)
    ensures var (ret, t) := Sends(s, pieces);
            t.wire == s.wire + Concat(pieces) && (ret == SUCCESS_RET <==> Rest(|Concat(pieces)|) > 0)
  {
    hide Filled, BlocksWhole, Drop;
    FirstPiece(s, pieces);
    AllFilledWhole(s, pieces);
  }

  /** The request is reported as sent and the connection has got all of it, if and only if every
      write comes back whole and something is left for the last one. */
  lemma SentExactly<T(!new)>(s: Tx<T>, pieces: seq<seq<T>>)
    requires Ready(s) && s.idx == 0 && pieces != [] && Distinct(Concat(pieces))
    ensures var (ret, t) := Sends(s, pieces);
            ret == SUCCESS_RET && t.wire == s.wire + Concat(pieces) <==>
            AllWhole(s.plan, |Concat(pieces)|) && Rest(|Concat(pieces)|) > 0
  {
    hide Filled, BlocksWhole, Drop, Distinct;
    var c := Concat(pieces);
    FirstPiece(s, pieces);
    assert s.buf[..s.idx] == [] && [] + c == c && s.wire + [] == s.wire;
    if BlocksWhole(s.plan, Blocks(|c|)) {
      AllFilledWhole(s, pieces);
      LastWrite(s, pieces, FilledAll(s, pieces));
    } else {
      var x := AllFilledLose(s, pieces);
      LostForGood(s, FilledAll(s, pieces), c, x);
    }
  }

  /** All blocks went out: what is left decides. */
  lemma LastWrite<T>(s: Tx<T>, pieces: seq<seq<T>>, u: Tx<T>)
    requires Ready(u) && u.wire + u.buf[..u.idx] == s.wire + Concat(pieces)
    ensures Written(u, u.idx).wire == s.wire + Concat(pieces) <==> u.idx == 0 || Outcome(u.plan, u.idx) == u.idx
  {
    hide Concat;
    assert |u.wire| + u.idx == |s.wire + Concat(pieces)|;
  }

  /** What is lost does not turn up in the last write either. */
  lemma LostForGood<T>(s: Tx<T>, u: Tx<T>, c: seq<T>, x: T)
    requires Ready(u) && x in c && Unsent(s, u, x)
    ensures Written(u, u.idx).wire != s.wire + c
  {
    var t := Written(u, u.idx);
    assert t.wire[|s.wire|..] == u.wire[|s.wire|..] + t.wire[|u.wire|..];
    assert x !in t.wire[|s.wire|..];
    assert (s.wire + c)[|s.wire|..] == c;
  }

  /** What is reported: a connection error if a block of the first piece falls short; if none of the whole
      request does, what the last write brings decides. */
  lemma ReportedExactly<T>(s: Tx<T>, pieces: seq<seq<T>>)
    requires Ready(s) && s.idx == 0 && pieces != []
    ensures var total := |Concat(pieces)|;
            var ret, last := Sends(s, pieces).0, Outcome(Drop(s.plan, Blocks(total)), Rest(total));
            && (!BlocksWhole(s.plan, Blocks(|pieces[0]|)) ==> ret == -8)
            && (BlocksWhole(s.plan, Blocks(total)) ==> ret == if last > 0 then 0 else if last == 0 then -3 else -8)
  {
    hide Filled, BlocksWhole, Drop;
    FirstPiece(s, pieces);
    FilledWhole(s, 0, pieces[0]);
    if BlocksWhole(s.plan, Blocks(|Concat(pieces)|)) {
      AllFilledWhole(s, pieces);
    }
  }

  /** Why a piece is not taken in: the write of its block `k`, the first that falls short. */
  lemma {:induction false} FailedExactly<T>(s: Tx<T>, at: nat, piece: seq<T>, k: nat)
    requires Ready(s) && at < HTTP_CLIENT_SEND_BUF_SIZE && k < Blocks(at + |piece|)
    requires BlocksWhole(s.plan, k) && k < |s.plan| && s.plan[k] < HTTP_CLIENT_SEND_BUF_SIZE
    ensures Filled(s, at, piece).0 == if s.plan[k] < 0 then s.plan[k] else if s.plan[k] == 0 then -3 else -8
    decreases |piece|
  {
    var room := HTTP_CLIENT_SEND_BUF_SIZE - at;
    var rest := piece[room..];
    assert at + |piece| == HTTP_CLIENT_SEND_BUF_SIZE + |rest|;
    BlocksAdd(HTTP_CLIENT_SEND_BUF_SIZE, |rest|);
    if k > 0 {
      var t := Written(s.(buf := s.buf[..at] + piece[..room]), HTTP_CLIENT_SEND_BUF_SIZE);
      assert s.plan[0] >= HTTP_CLIENT_SEND_BUF_SIZE;
      WholeAdd(s.plan, 1, k - 1);
      FailedExactly(t, 0, rest, k - 1);
    }
  }

  /** A request of which a later piece completes a block that is refused: that piece is lost, what
      was in the buffer before is sent, and the request counts as sent. */
  lemma RefusedBlockCountsAsSent<T>(s: Tx<T>, head: seq<T>, piece: seq<T>)
    requires Ready(s) && s.idx == 0 && s.plan == [0]
    requires 0 < |head| < HTTP_CLIENT_SEND_BUF_SIZE <= |head| + |piece|
    ensures var (ret, t) := Sends(s, [head, piece]); ret == SUCCESS_RET && t.wire == s.wire + head
  {
    var (_, t) := Filled(s, 0, head);
    var (_, u) := Filled(t, t.idx, piece);
    assert [head, piece][1..] == [piece] && [piece][1..] == [];
    assert u == FilledAll(t, [piece]);
    assert u.buf[..u.idx] == head;
  }
}
