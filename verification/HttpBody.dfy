// The response body of uiot/utils/utils_httpc.c and the byte accounting of uiot/ota/src/ota_fetch.c.
module HttpBody {
  import opened BlockHash

  const SUCCESS_RET := 0
  const FAILURE_RET := -1
  const ERR_HTTP_CONN_ERROR := -8
  const ERR_HTTP_AUTH_ERROR := -9
  const ERR_HTTP_NOT_FOUND := -10
  const ERR_HTTP_TIMEOUT := -11
  const ERR_OTA_FILE_NOT_EXIST := -306
  const ERR_OTA_FETCH_AUTH_FAIL := -307
  const ERR_OTA_FETCH_TIMEOUT := -308
  const HTTP_RETRIEVE_MORE_DATA := 1
  const HTTP_CLIENT_CHUNK_SIZE := 1024
  const MAX_RETRY_COUNT := 600

  type Code = r: int | r <= 0
  type Failure = r: int | r < 0 witness -1

  type Length = n: int | -1 <= n

  /** How one read of the socket turns out: the link is gone, or at most `n` bytes are available
      (none: the read times out). `late` says that the timer has less than MIN_TIMEOUT left after
      it, `spent` that it is at zero once it has been extended. */
  datatype Read = Broken | Gives(n: nat, late: bool, spent: bool)

  /** What the header of a response announces, with the bytes of the body that were read together
      with it and those still to come. */
  datatype Answer =
    | NoHeader(rc: Failure)
    | Header(length: Length, leftover: seq<byte>, body: seq<byte>)

  /** One request and what comes of it: the result of sending, the answer, the coming reads. */
  datatype Exchange = Exchange(sendRc: Code, answer: Answer, plan: seq<Read>)

  function Min(a: int, b: int): int { if a <= b then a else b }

  /** The errors of the HTTP client that the download tells apart. */
  function Translated(rc: Failure): (r: Failure)
    ensures r == -306 <==> rc == -10 || rc == -306
    ensures r == -307 <==> rc == -9 || rc == -307
    ensures r == -308 <==> rc == -11 || rc == -308
    ensures rc !in {-9, -10, -11} ==> r == rc
  {
    if rc == ERR_HTTP_NOT_FOUND then ERR_OTA_FILE_NOT_EXIST
    else if rc == ERR_HTTP_AUTH_ERROR then ERR_OTA_FETCH_AUTH_FAIL
    else if rc == ERR_HTTP_TIMEOUT then ERR_OTA_FETCH_TIMEOUT else rc
  }

  /** The part of the bytes read with the header that reaches a buffer with the given room. */
  function Kept(leftover: seq<byte>, wanted: int, room: int): (kept: seq<byte>)
    requires wanted >= 0 && room >= 0
    ensures kept <= leftover
  {
    leftover[..Min(Min(|leftover|, wanted), room)]
  }

  /** The reads keep bringing bytes. */
  predicate Flowing(plan: seq<Read>, need: nat) {
    |plan| >= need && forall r :: r in plan ==> r.Gives? && r.n > 0
  }

  /** A read that brings nothing, because the server is slow or has sent everything. */
  predicate Silent(r: Read, incoming: seq<byte>) { r.Gives? && (r.n == 0 || incoming == []) }

  /** The last `n` reads were silent and used up their time. */
  predicate SilentTail(used: seq<Read>, n: nat, incoming: seq<byte>) {
    n <= |used| && forall i :: |used| - n <= i < |used| ==> Silent(used[i], incoming) && used[i].spent
  }

  function Lates(used: seq<Read>): nat {
    if used == [] then 0
    else var r := used[|used| - 1]; Lates(used[..|used| - 1]) + if r.Gives? && r.late then 1 else 0
  }

  /** What the counters of the deadloop check have seen. */
  ghost predicate Watched(before: seq<Read>, plan: seq<Read>, incoming: seq<byte>, dead: nat, extended: nat) {
    && |plan| <= |before| && plan == before[|before| - |plan|..]
    && var used := before[..|before| - |plan|];
       SilentTail(used, dead, incoming) && extended == Lates(used)
  }

  lemma WatchedNext(before: seq<Read>, plan: seq<Read>, incoming: seq<byte>, incoming': seq<byte>, dead: nat,
                    extended: nat)
    requires plan != [] && plan[0].Gives? && Watched(before, plan, incoming, dead, extended)
    ensures var r := plan[0];
            var late := if r.late then 1 else 0;
            && Watched(before, plan[1..], incoming', 0, extended + late)
            && (r.spent && Silent(r, incoming) && incoming' == incoming ==>
                Watched(before, plan[1..], incoming', dead + 1, extended + late))
            && LastUsed(before, plan[1..]) == r
  {
    var n := |before| - |plan|;
    assert before == before[..n] + plan;
    assert before[..n + 1] == before[..n] + [plan[0]] && before[..n + 1][..n] == before[..n];
  }

  /** The last read that has been made; as long as there is none, `Broken`. */
  function LastUsed(before: seq<Read>, plan: seq<Read>): Read {
    if |plan| < |before| then before[|before| - |plan| - 1] else Broken
  }

  /** Receiving ends without success because the link is gone, or the last 601 reads were silent and
      used up their time, or the last one was silent and the timer has been extended 1201 times. */
  ghost predicate LostOrGivenUp(before: seq<Read>, after: seq<Read>, incoming: seq<byte>) {
    && |after| <= |before| && after == before[|before| - |after|..]
    && var used := before[..|before| - |after|];
       (|| after == []
        || LastUsed(before, after).Broken?
        || SilentTail(used, MAX_RETRY_COUNT + 1, incoming)
        || (Silent(LastUsed(before, after), incoming) && Lates(used) > 2 * MAX_RETRY_COUNT))
  }

  lemma {:induction false} LatesAreReads(used: seq<Read>)
    ensures Lates(used) <= |used|
  {
    if used != [] {
      LatesAreReads(used[..|used| - 1]);
    }
  }

  /** While the link holds, receiving is not given up before the 601st read. */
  lemma PatientWhileLinked(before: seq<Read>, after: seq<Read>, incoming: seq<byte>)
    requires LostOrGivenUp(before, after, incoming) && after != [] && forall r :: r in before ==> r.Gives?
    requires |after| < |before|
    ensures |before| - |after| > MAX_RETRY_COUNT && Silent(LastUsed(before, after), incoming)
  {
    var used := before[..|before| - |after|];
    LatesAreReads(used);
    assert LastUsed(before, after) in before;
  }

  /** OTA_Http_Client: the connection and the response being received. */
  class HttpClient {
    var open: bool
    var isMore: bool
    var retrieveLen: int
    var contentLen: int
    var receivedLen: int
    var responseBuf: array<byte>
    var incoming: seq<byte>  // sent by the server and not yet read
    var plan: seq<Read>

    constructor (open: bool)
      ensures this.open == open && Valid() && !isMore && fresh(responseBuf)
    {
      this.open := open;
      isMore, retrieveLen, contentLen, receivedLen := false, 0, 0, 0;
      responseBuf := new byte[1];
      incoming, plan := [], [];
    }

    ghost predicate Valid()
      reads this
    {
      open ==> retrieveLen >= 0 && (isMore || retrieveLen == 0)
    }

    /** Some of the bytes to come, at most `max`, or a time-out, or a broken link. */
    method Receive(max: int) returns (ret: int, data: seq<byte>, late: bool, spent: bool)
      requires max > 0
      modifies `incoming, `plan
      ensures ret == SUCCESS_RET || ret == FAILURE_RET || ret == ERR_HTTP_CONN_ERROR
      ensures |data| <= max && old(incoming) == data + incoming
      ensures ret == SUCCESS_RET <==> data != []
      ensures plan == old(plan)[if old(plan) == [] then 0 else 1..]
      ensures ret == ERR_HTTP_CONN_ERROR <==> old(plan) == [] || old(plan)[0].Broken?
      ensures ret != ERR_HTTP_CONN_ERROR ==> var r := old(plan)[0];
              late == r.late && spent == r.spent && (data == [] ==> Silent(r, incoming))
      ensures Flowing(old(plan), 1) && old(incoming) != [] ==> ret == SUCCESS_RET && Flowing(plan, |old(plan)| - 1)
    {
      late, spent := false, false;
      if plan == [] {
        return ERR_HTTP_CONN_ERROR, [], late, spent;
      }
      var now := plan[0];
      plan := plan[1..];
      assert now in old(plan);
      if now.Broken? {
        return ERR_HTTP_CONN_ERROR, [], late, spent;
      }
      var k := Min(Min(now.n, max), |incoming|);
      data := incoming[..k];
      incoming := incoming[k..];
      ret := if k > 0 then SUCCESS_RET else FAILURE_RET;
      late, spent := now.late, now.spent;
    }

    /** _utils_fill_rx_buf: moves `len` bytes behind the first `count` if they fit with the
        terminator; otherwise as many as fit, and the rest of them is dropped. */
    method FillRxBuf(count: nat, data: seq<byte>, len: int) returns (ret: int, count': nat)
      requires 0 <= len <= |data| && count < responseBuf.Length
      modifies `retrieveLen, responseBuf
      ensures var room := responseBuf.Length - 1 - count; var kept := Min(len, room);
              && retrieveLen == old(retrieveLen) - kept
              && responseBuf[..count + kept] == old(responseBuf[..count]) + data[..kept]
              && responseBuf[count + kept] == 0
              && ret == (if len < room then SUCCESS_RET else HTTP_RETRIEVE_MORE_DATA)
              && (len < room ==> count' == count + len)
    {
      count' := count;
      ghost var before := responseBuf[..count];
      if count + len < responseBuf.Length - 1 {
        CopyIn(responseBuf, count, data, len);
        count' := count + len;
        assert responseBuf[..count'] == before + data[..len];
        responseBuf[count'] := 0;
        assert responseBuf[..count'] == before + data[..len];
        retrieveLen := retrieveLen - len;
        ret := SUCCESS_RET;
      } else {
        var room := responseBuf.Length - 1 - count;
        CopyIn(responseBuf, count, data, room);
        assert responseBuf[..count + room] == before + data[..room];
        responseBuf[responseBuf.Length - 1] := 0;
        assert responseBuf[..count + room] == before + data[..room];
        retrieveLen := retrieveLen - room;
        ret := HTTP_RETRIEVE_MORE_DATA;
      }
    }

    /** _http_get_response_body. Every byte that arrives is delivered, at the next place of the
        buffer, in every outcome; nothing is lost unless the bytes read with the header do not fit. */
    method GetResponseBody(leftover: seq<byte>) returns (ret: int)
      requires responseBuf.Length > 0 && (retrieveLen >= 0 || contentLen == -1)
      modifies `isMore, `retrieveLen, `incoming, `plan, responseBuf
      ensures isMore <==> ret != SUCCESS_RET
      ensures contentLen == -1 ==> ret == ERR_HTTP_CONN_ERROR && unchanged(`incoming, `retrieveLen)
      ensures contentLen != -1 ==>
                Delivered(leftover, old(retrieveLen), old(incoming), incoming, responseBuf[..], retrieveLen)
      ensures contentLen != -1 ==> Ended(ret, old(retrieveLen), retrieveLen, responseBuf.Length - 1)
      ensures contentLen != -1 && Supplied(leftover, old(incoming), old(plan), old(retrieveLen)) ==> ret >= 0
      ensures contentLen != -1 && ret == ERR_HTTP_CONN_ERROR ==> LostOrGivenUp(old(plan), plan, incoming)
    {
      hide Delivered, Midway, Kept, Supplied, Flowing, Watched, LostOrGivenUp;
      isMore := true;
      if contentLen == -1 {
        return ERR_HTTP_CONN_ERROR;
      }
      var written, data, dead, extended := 0, leftover, 0, 0;
      ghost var total, stream, room := retrieveLen, incoming, responseBuf.Length - 1;
      BodyBegins(leftover, total, stream, responseBuf[..], plan);
      NothingSeen(plan, incoming);
      while true
        invariant written == total - retrieveLen && isMore && responseBuf == old(responseBuf)
        invariant Midway(leftover, total, stream, incoming, responseBuf[..], retrieveLen, data)
        invariant Supplied(leftover, stream, old(plan), total) ==> Supplied(data, incoming, plan, retrieveLen)
        invariant Watched(old(plan), plan, incoming, dead, extended)
        decreases |plan|
      {
        ghost var buf, left := responseBuf[..], retrieveLen;
        InBounds(leftover, total, stream, incoming, buf, left, data);
        ret, written := FillRxBuf(written, data, Min(|data|, retrieveLen));
        Moved(leftover, total, stream, incoming, buf, left, data, responseBuf[..]);
        if ret == HTTP_RETRIEVE_MORE_DATA {
          return;
        }
        if retrieveLen != 0 {
          StillSupplied(data, incoming, plan, left);
          ghost var rest, coming := incoming, plan;
          ret, data, dead, extended := ReceiveMore(written, dead, extended, old(plan));
          if ret == ERR_HTTP_CONN_ERROR {
            assert rest == incoming;
            return;
          }
          Arrived(leftover, total, stream, rest, responseBuf[..], retrieveLen, data, incoming);
          SuppliedOn(rest, coming, retrieveLen, data, incoming, plan);
        }
        if retrieveLen == 0 {
          break;
        }
      }
      isMore := false;
      ret := SUCCESS_RET;
    }

    /** One read, of at most a chunk, what fits and what is wanted, under the deadloop check. */
    method ReceiveMore(written: nat, dead: nat, extended: nat, ghost before: seq<Read>)
      returns (ret: int, data: seq<byte>, dead': nat, extended': nat)
      requires retrieveLen > 0 && written < responseBuf.Length - 1
      requires Watched(before, plan, incoming, dead, extended)
      modifies `incoming, `plan
      ensures old(incoming) == data + incoming && |data| <= retrieveLen && written + |data| < responseBuf.Length
      ensures ret == ERR_HTTP_CONN_ERROR ==> data == [] && LostOrGivenUp(before, plan, incoming)
      ensures ret != ERR_HTTP_CONN_ERROR ==>
                |plan| < |old(plan)| && Watched(before, plan, incoming, dead', extended')
      ensures Flowing(old(plan), 1) && old(incoming) != [] ==>
                ret != ERR_HTTP_CONN_ERROR && data != [] && Flowing(plan, |old(plan)| - 1)
    {
      hide Watched, LostOrGivenUp;
      ghost var rest, coming := incoming, plan;
      dead', extended' := dead, extended;
      var max := Min(HTTP_CLIENT_CHUNK_SIZE - 1, responseBuf.Length - 1 - written);
      max := Min(max, retrieveLen);
      var late, spent;
      ret, data, late, spent := Receive(max);
      if ret == ERR_HTTP_CONN_ERROR {
        LinkGone(before, coming, plan, rest, dead, extended);
        assert rest == incoming;
        return;
      }
      WatchedNext(before, coming, rest, incoming, dead, extended);
      ret, dead', extended' := CheckDeadloop(|data|, ret, late, spent, dead, extended);
      if ret == ERR_HTTP_CONN_ERROR {
        GivenUp(before, plan, incoming, dead', extended');
      }
    }

    /** ofc_fetch: asks for the next range and receives into `buf`. A response that did not fit the
        buffer of the previous call is continued, whatever has just been asked for. The result is
        the number of bytes placed in `buf`, in both cases. */
    method Fetch(x: Exchange, buf: array<byte>) returns (ret: int)
      requires Valid() && buf.Length > 0
      modifies this, buf
      ensures Valid() && (x.sendRc == 0 && ret < 0 ==> !open)
      ensures !old(open) || x.sendRc != 0 ==> unchanged(this) && ret == (if open then x.sendRc else FAILURE_RET)
      ensures old(open) && x.sendRc == 0 && !old(isMore) && x.answer.NoHeader? ==> ret == Translated(x.answer.rc)
      ensures ret >= 0 ==> open && x.sendRc == 0 && (old(isMore) || x.answer.Header?)
      ensures ret >= 0 && old(isMore) ==>
                && Delivered([], old(retrieveLen), old(incoming), incoming, buf[..], old(retrieveLen) - ret)
                && retrieveLen == old(retrieveLen) - ret
                && ret == Min(old(retrieveLen), buf.Length - 1) && (isMore <==> old(retrieveLen) >= buf.Length - 1)
      ensures ret >= 0 && !old(isMore) ==>
                && Delivered(x.answer.leftover, x.answer.length, x.answer.body, incoming, buf[..],
                             x.answer.length - ret)
                && retrieveLen == x.answer.length - ret
                && ret == Min(x.answer.length, buf.Length - 1) && (isMore <==> x.answer.length >= buf.Length - 1)
      ensures old(open) && !old(isMore) && WellServed(x) ==> ret >= 0
    {
      hide Delivered, Supplied;
      if !open {
        return FAILURE_RET;
      }
      if x.sendRc != SUCCESS_RET {
        return x.sendRc;
      }
      responseBuf, contentLen, receivedLen, plan := buf, 0, 0, x.plan;
      var diff := contentLen - retrieveLen;
      if isMore {
        buf[0] := 0;
        ret := GetResponseBody([]);
      } else {
        ret := ReceiveFresh(x.answer);
      }
      if ret < 0 {
        open := false;
        if ret == ERR_HTTP_NOT_FOUND {
          return ERR_OTA_FILE_NOT_EXIST;
        }
        if ret == ERR_HTTP_AUTH_ERROR {
          return ERR_OTA_FETCH_AUTH_FAIL;
        }
        if ret == ERR_HTTP_TIMEOUT {
          return ERR_OTA_FETCH_TIMEOUT;
        }
        return;
      }
      ret := contentLen - retrieveLen - diff;
    }

    /** The header, then the body. */
    method ReceiveFresh(answer: Answer) returns (ret: int)
      requires responseBuf.Length > 0
      modifies this, responseBuf
      ensures responseBuf == old(responseBuf) && open == old(open)
      ensures answer.NoHeader? ==> ret == answer.rc
      ensures ret >= 0 ==> answer.Header? && contentLen == answer.length >= 0 && (isMore <==> ret != SUCCESS_RET)
                           && Delivered(answer.leftover, answer.length, answer.body, incoming, responseBuf[..],
                                        retrieveLen)
                           && Ended(ret, answer.length, retrieveLen, responseBuf.Length - 1)
      ensures answer.Header? && answer.length >= 0 &&
              Supplied(answer.leftover, answer.body, old(plan), answer.length) ==>
                ret >= 0
    {
      hide Delivered, Supplied;
      isMore := true;
      contentLen := -1;
      match answer
      case NoHeader(rc) =>
        ret := rc;
      case Header(length, leftover, body) =>
        contentLen, retrieveLen, incoming := length, length, body;
        receivedLen := receivedLen + |leftover|;
        ret := GetResponseBody(leftover);
    }
  }

  /** The bytes delivered and the bytes read balance exactly when what came with the header fits
      the buffer; otherwise the difference has been lost. */
  lemma NothingLostExactly(leftover: seq<byte>, wanted: int, stream: seq<byte>, rest: seq<byte>, buf: seq<byte>,
                           left: int)
    requires Delivered(leftover, wanted, stream, rest, buf, left)
    ensures var came := Min(|leftover|, wanted) + |stream| - |rest|;
            && wanted - left
                 == came - (if Min(|leftover|, wanted) <= |buf| - 1 then 0 else Min(|leftover|, wanted) - (|buf| - 1))
            && (wanted - left == came <==> Min(|leftover|, wanted) <= |buf| - 1)
  {
    assert |buf[..wanted - left]| == |Kept(leftover, wanted, |buf| - 1)| + |stream| - |rest|;
  }

  /** Without loss the buffer holds the front of the body. */
  lemma FrontOfBody(leftover: seq<byte>, wanted: int, stream: seq<byte>, rest: seq<byte>, buf: seq<byte>, left: int)
    requires Delivered(leftover, wanted, stream, rest, buf, left) && |leftover| <= wanted && |leftover| <= |buf| - 1
    ensures |leftover + stream| >= wanted - left && buf[..wanted - left] == (leftover + stream)[..wanted - left]
    ensures |leftover| <= wanted - left && rest == (leftover + stream)[wanted - left..]
  {
    var n := |stream| - |rest|;
    assert Kept(leftover, wanted, |buf| - 1) == leftover;
    assert leftover + stream == leftover + stream[..n] + rest;
  }

  /** A response received in two calls: the second buffer goes on where the first one stopped. */
  lemma ContinuedBody(leftover: seq<byte>, wanted: int, stream: seq<byte>, rest: seq<byte>, buf: seq<byte>, left: int,
                      rest': seq<byte>, buf': seq<byte>, left': int)
    requires Delivered(leftover, wanted, stream, rest, buf, left) && |leftover| <= wanted && |leftover| <= |buf| - 1
    requires Delivered([], left, rest, rest', buf', left')
    ensures |leftover + stream| >= wanted - left' && rest' == (leftover + stream)[wanted - left'..]
    ensures buf[..wanted - left] + buf'[..left - left'] == (leftover + stream)[..wanted - left']
  {
    FrontOfBody(leftover, wanted, stream, rest, buf, left);
    FrontOfBody([], left, rest, rest', buf', left');
    assert [] + rest == rest;
    var all, d, e := leftover + stream, wanted - left, left - left';
    assert all[..d + e] == all[..d] + all[d..][..e];
  }

  /** Of the `wanted` bytes of a body, `left` are still to be retrieved and the others stand at the
      front of the buffer: the kept part of what came with the header, then all that was read from
      the stream, of which `rest` remains. */
  ghost predicate Delivered(leftover: seq<byte>, wanted: int, stream: seq<byte>, rest: seq<byte>, buf: seq<byte>,
                            left: int) {
    && 0 <= left <= wanted && wanted - left < |buf|
    && |rest| <= |stream| && stream[|stream| - |rest|..] == rest
    && buf[..wanted - left] == Kept(leftover, wanted, |buf| - 1) + stream[..|stream| - |rest|]
    && buf[wanted - left] == 0
  }

  /** The three ways to end: everything delivered, the buffer full, or the link lost. */
  predicate Ended(ret: int, wanted: int, left: int, room: int) {
    0 <= left &&
    (|| (ret == SUCCESS_RET && left == 0 && wanted < room)
     || (ret == HTTP_RETRIEVE_MORE_DATA && wanted - left == room)
     || (ret == ERR_HTTP_CONN_ERROR && 0 < left))
  }

  /** Before `data` is moved: nothing has been delivered and `data` came with the header, or `data`
      has just been read, is wanted and fits. */
  ghost predicate Midway(leftover: seq<byte>, wanted: int, stream: seq<byte>, rest: seq<byte>, buf: seq<byte>,
                         left: int, data: seq<byte>) {
    && 0 < |buf| && 0 <= wanted
    && (|| (data == leftover && left == wanted && rest == stream)
        || (&& 0 < left && |data| <= left && wanted - left + |data| < |buf| && Min(|leftover|, wanted) < |buf| - 1
            && Delivered(leftover, wanted, stream, data + rest, buf, left)))
  }

  /** What came with the header and what is still to come suffices, and the reads bring it. */
  ghost predicate Supplied(data: seq<byte>, rest: seq<byte>, plan: seq<Read>, left: int) {
    left >= 0 && |data| + |rest| >= left && Flowing(plan, left - Min(|data|, left))
  }

  /** The request goes out, and the whole response arrives. */
  ghost predicate WellServed(x: Exchange) {
    x.sendRc == 0 && x.answer.Header? && x.answer.length >= 0 &&
      Supplied(x.answer.leftover, x.answer.body, x.plan, x.answer.length)
  }

  lemma BodyBegins(leftover: seq<byte>, wanted: int, stream: seq<byte>, buf: seq<byte>, plan: seq<Read>)
    requires 0 < |buf| && 0 <= wanted
    ensures Midway(leftover, wanted, stream, stream, buf, wanted, leftover)
  {
  }

  lemma InBounds(leftover: seq<byte>, wanted: int, stream: seq<byte>, rest: seq<byte>, buf: seq<byte>, left: int,
                 data: seq<byte>)
    requires Midway(leftover, wanted, stream, rest, buf, left, data)
    ensures 0 <= left <= wanted && wanted - left < |buf|
  {
  }

  lemma NothingSeen(plan: seq<Read>, incoming: seq<byte>)
    ensures Watched(plan, plan, incoming, 0, 0)
  {
  }

  lemma LinkGone(before: seq<Read>, coming: seq<Read>, plan: seq<Read>, incoming: seq<byte>, dead: nat, extended: nat)
    requires Watched(before, coming, incoming, dead, extended)
    requires if coming == [] then plan == [] else coming[0].Broken? && plan == coming[1..]
    ensures LostOrGivenUp(before, plan, incoming)
  {
  }

  lemma GivenUp(before: seq<Read>, plan: seq<Read>, incoming: seq<byte>, dead: nat, extended: nat)
    requires Watched(before, plan, incoming, dead, extended) && Silent(LastUsed(before, plan), incoming)
    requires dead > MAX_RETRY_COUNT || extended > 2 * MAX_RETRY_COUNT
    ensures LostOrGivenUp(before, plan, incoming)
  {
  }

  /** Moving what fits of `data` delivers it. */
  lemma Moved(leftover: seq<byte>, wanted: int, stream: seq<byte>, rest: seq<byte>, buf: seq<byte>, left: int,
              data: seq<byte>, buf': seq<byte>)
    requires Midway(leftover, wanted, stream, rest, buf, left, data) && |buf'| == |buf|
    requires 0 <= left <= wanted && wanted - left < |buf|
    requires var count := wanted - left; var kept := Min(Min(|data|, left), |buf| - 1 - count);
             buf'[..count + kept] == buf[..count] + data[..kept] && buf'[count + kept] == 0
    ensures var kept := Min(Min(|data|, left), |buf| - 1 - (wanted - left));
            left - kept >= 0 && Delivered(leftover, wanted, stream, rest, buf', left - kept)
    ensures Min(|data|, left) < |buf| - 1 - (wanted - left) ==> Min(|leftover|, wanted) < |buf| - 1
  {
    var kept := Min(Min(|data|, left), |buf| - 1 - (wanted - left));
    if data == leftover && left == wanted && rest == stream {
      assert buf'[..kept] == Kept(leftover, wanted, |buf| - 1);
      assert stream[..0] == [] && stream[|stream|..] == [];
    } else {
      assert data[..kept] == data;
      MovedOn(leftover, wanted, stream, rest, buf, left, data, buf');
    }
  }

  lemma MovedOn(leftover: seq<byte>, wanted: int, stream: seq<byte>, rest: seq<byte>, buf: seq<byte>, left: int,
                data: seq<byte>, buf': seq<byte>)
    requires Delivered(leftover, wanted, stream, data + rest, buf, left) && |data| <= left &&
             wanted - left + |data| < |buf| == |buf'|
    requires buf'[..wanted - left + |data|] == buf[..wanted - left] + data && buf'[wanted - left + |data|] == 0
    ensures Delivered(leftover, wanted, stream, rest, buf', left - |data|)
  {
    hide Kept;
    var n := |stream| - |rest|;
    assert stream[n..] == (data + rest)[|data|..] == rest;
    assert stream[..n] == stream[..n - |data|] + (data + rest)[..|data|];
    assert (data + rest)[..|data|] == data;
  }

  /** Taking bytes off the stream makes them the next to move. */
  lemma Arrived(leftover: seq<byte>, wanted: int, stream: seq<byte>, rest: seq<byte>, buf: seq<byte>, left: int,
                data: seq<byte>, rest': seq<byte>)
    requires Delivered(leftover, wanted, stream, rest, buf, left) && rest == data + rest' && 0 < left <= wanted
    requires |data| <= left && wanted - left + |data| < |buf| && Min(|leftover|, wanted) < |buf| - 1
    ensures Midway(leftover, wanted, stream, rest', buf, left, data)
  {
    hide Delivered, Kept;
  }

  lemma StillSupplied(data: seq<byte>, rest: seq<byte>, plan: seq<Read>, left: int)
    requires left > |data|
    ensures Supplied(data, rest, plan, left) ==> Supplied([], rest, plan, left - |data|)
    ensures Supplied([], rest, plan, left - |data|) ==> rest != [] && Flowing(plan, 1)
  {
  }

  lemma SuppliedOn(rest: seq<byte>, plan: seq<Read>, left: int, data: seq<byte>, rest': seq<byte>, plan': seq<Read>)
    requires rest == data + rest' && |data| <= left && 0 < left
    requires Flowing(plan, 1) && rest != [] ==> data != [] && Flowing(plan', |plan| - 1)
    ensures Supplied([], rest, plan, left) ==> Supplied(data, rest', plan', left)
  {
  }

  /** _utils_check_deadloop: gives up on a run of silent reads, never on a read that brought bytes. */
  method CheckDeadloop(len: nat, ret: int, late: bool, spent: bool, dead: nat, extended: nat)
    returns (rc: int, dead': nat, extended': nat)
    ensures rc == ERR_HTTP_CONN_ERROR || rc == SUCCESS_RET
    ensures len > 0 || ret != FAILURE_RET ==> rc == SUCCESS_RET && dead' == 0
    ensures dead' == (if len == 0 && spent && ret == FAILURE_RET then dead + 1 else 0)
    ensures extended' == extended + (if late then 1 else 0)
    ensures len == 0 && ret == FAILURE_RET ==>
              (rc == ERR_HTTP_CONN_ERROR <==> (spent && dead >= MAX_RETRY_COUNT) || extended' > 2 * MAX_RETRY_COUNT)
    ensures rc == ERR_HTTP_CONN_ERROR ==> dead' > MAX_RETRY_COUNT || extended' > 2 * MAX_RETRY_COUNT
  {
    dead', extended' := dead, extended;
    if late {
      extended' := extended' + 1;
    }
    if len == 0 && spent && ret == FAILURE_RET {
      dead' := dead' + 1;
      if dead' > MAX_RETRY_COUNT {
        return ERR_HTTP_CONN_ERROR, dead', extended';
      }
    } else {
      dead' := 0;
    }
    if len == 0 && extended' > 2 * MAX_RETRY_COUNT && ret == FAILURE_RET {
      return ERR_HTTP_CONN_ERROR, dead', extended';
    }
    rc := SUCCESS_RET;
  }

  method CopyIn(dst: array<byte>, at: nat, src: seq<byte>, n: nat)
    requires at + n <= dst.Length && n <= |src|
    modifies dst
    ensures dst[..at] == old(dst[..at]) && dst[at..at + n] == src[..n] && dst[at + n..] == old(dst[at + n..])
  {
    for i := 0 to n
      invariant dst[..at] == old(dst[..at]) && dst[at..at + i] == src[..i] && dst[at + n..] == old(dst[at + n..])
    {
      dst[at + i] := src[i];
    }
  }
}
