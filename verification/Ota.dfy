// The firmware download of uiot/ota/src/ota_client.c: ranged fetches with retry feed the flash and
// the MD5 context in lockstep, and success is reported only for a complete, matching image.
module Ota {
  import opened BlockHash
  import opened HttpBody
  import Rfc1321 = Md5Spec
  import Md5Engine
  import Md5Text

  const HTTP_OTA_BUFF_LEN := 4100
  const HTTP_OTA_RANGE_LEN := 4096
  const RANGE := HTTP_OTA_RANGE_LEN + 1  // both ends of a range are included
  const TRIES := 5
  const OTA_VERSION_STR_LEN_MAX := 32
  const ERR_OTA_INVALID_STATE := -303
  const ERR_OTA_FETCH_FAILED := -305
  const ERR_OTA_MD5_MISMATCH := -311
  const OTA_ERRCODE_FIRMWARE_NOT_EXIST := -1
  const OTA_ERRCODE_SIGNATURE_EXPIRED := -2
  const OTA_ERRCODE_DOWNLOAD_TIMEOUT := -3
  const OTA_ERRCODE_MD5_MISMATCH := -4

  datatype Status = Uninited | Inited | Fetching | Fetched | Disconnected

  /** The messages that can arrive while the client yields. */
  datatype Message = Update | Cancel(moduleName: string, version: string)

  datatype Report = Fail(code: int) | Success(version: string)

  /** One try to fetch, whether a reconnect after it works, and the result of publishing its failure. */
  datatype Attempt = Attempt(exchange: Exchange, reconnects: bool, reportRc: Code)

  /** What happens in one round of the loop: the tries to fetch, whether the flash takes the bytes,
      and the messages that arrive in the pause after it. */
  datatype Round = Round(attempts: seq<Attempt>, written: bool, messages: seq<Message>)

  const NOTHING := Round([], false, [])
  const UNREACHABLE := Attempt(Exchange(FAILURE_RET, NoHeader(FAILURE_RET), []), false, 0)

  function At(script: seq<Round>, i: nat): Round { if i < |script| then script[i] else NOTHING }

  predicate Cancelled(messages: seq<Message>, moduleName: string, version: string) {
    Cancel(moduleName, version) in messages
  }

  /** The updates that arrive before a cancel. */
  function Queued(messages: seq<Message>, moduleName: string, version: string): (q: seq<Message>)
    ensures forall m :: m in q ==> m == Update
  {
    if messages == [] then []
    else
      var n := |messages| - 1;
      Queued(messages[..n], moduleName, version)
      + (if messages[n].Update? && !Cancelled(messages[..n], moduleName, version) then [Update] else [])
  }

  /** The bytes of a file that a request from `from` on asks for. */
  function Slice(file: seq<byte>, from: nat): (s: seq<byte>) {
    file[Min(from, |file|)..Min(from + RANGE, |file|)]
  }

  /** The number of requests it takes to fetch `size` bytes. */
  function Needed(size: nat): nat { (size + RANGE - 1) / RANGE }

  /** What `n` requests have fetched. */
  function Front(file: seq<byte>, n: nat): (s: seq<byte>) {
    file[..Min(RANGE * n, |file|)]
  }

  /** A server that answers a request from `from` on, if it answers, with what was asked for. */
  predicate HonestAt(file: seq<byte>, from: nat, x: Exchange) {
    x.sendRc == 0 && x.answer.Header? ==>
      && x.answer.length == |Slice(file, from)|
      && |x.answer.leftover| <= 32 && x.answer.leftover + x.answer.body == Slice(file, from)
  }

  predicate HonestRound(file: seq<byte>, from: nat, round: Round) {
    forall a :: a in round.attempts ==> HonestAt(file, from, a.exchange)
  }

  /** Every round is served from the file; round `i` asks from byte `RANGE * i` on. */
  predicate Honest(file: seq<byte>, script: seq<Round>) {
    forall i :: 0 <= i < |script| ==> HonestRound(file, RANGE * i, script[i])
  }

  /** The connection is lost before each of the first `k` requests and made again, and the next one
      is served. */
  ghost predicate RecoversAfter(round: Round, k: nat) {
    k < TRIES && k < |round.attempts| && WellServed(round.attempts[k].exchange) && AllLost(round, k)
  }

  predicate AllLost(round: Round, k: nat) {
    k <= |round.attempts| &&
    forall j :: 0 <= j < k ==> round.attempts[j].exchange.sendRc == ERR_HTTP_CONN_ERROR && round.attempts[j].reconnects
  }

  ghost predicate Recovers(round: Round) { exists k :: RecoversAfter(round, k) }

  lemma LostStep(round: Round, k: nat)
    ensures AllLost(round, 0)
    ensures AllLost(round, k + 1) <==>
              AllLost(round, k) && k < |round.attempts| && round.attempts[k].exchange.sendRc == ERR_HTTP_CONN_ERROR &&
                round.attempts[k].reconnects
    ensures RecoversAfter(round, k) ==>
              AllLost(round, k) && k < |round.attempts| && WellServed(round.attempts[k].exchange)
  {
    hide WellServed;
  }

  lemma LostPrefix(round: Round, j: nat, k: nat)
    requires j <= k
    ensures AllLost(round, k) ==> AllLost(round, j)
  {
  }

  /** If a round recovers and has not done so before, all tries so far have been lost; and this one is
      if it is not served. */
  lemma LostBefore(round: Round, tries: nat)
    requires forall k :: 0 <= k < tries ==> !RecoversAfter(round, k)
    ensures Recovers(round) ==>
              tries < TRIES && AllLost(round, tries) && (RecoversAfter(round, tries) || AllLost(round, tries + 1))
  {
    hide WellServed;
    if Recovers(round) {
      var k: nat :| RecoversAfter(round, k);
      assert k >= tries;
    }
  }

  ghost predicate SteadyRound(round: Round, moduleName: string, version: string) {
    Recovers(round) && round.written && !Cancelled(round.messages, moduleName, version)
  }

  /** Nothing goes wrong in the rounds it takes to fetch `size` bytes. */
  ghost predicate Steady(size: nat, script: seq<Round>, moduleName: string, version: string) {
    RANGE * |script| >= size &&
    forall i :: 0 <= i < |script| ==> SteadyRound(script[i], moduleName, version)
  }

  /** A server with at least the announced number of bytes, and nothing that goes wrong. */
  ghost predicate Smooth(file: seq<byte>, size: nat, script: seq<Round>, moduleName: string, version: string) {
    Honest(file, script) && |file| >= size && Steady(size, script, moduleName, version)
  }

  class Flash {
    var contents: seq<byte>

    /** HAL_Download_Write; the bytes already written stay. */
    method Write(offset: nat, data: array<byte>, len: nat, works: bool) returns (ret: int)
      requires offset <= |contents| && len <= data.Length
      modifies this
      ensures ret == (if works then SUCCESS_RET else FAILURE_RET)
      ensures contents == if works then old(contents)[..offset] + data[..len] else old(contents)
    {
      if !works {
        return FAILURE_RET;
      }
      contents := contents[..offset] + data[..len];
      ret := SUCCESS_RET;
    }
  }

  class Client {
    var state: Status
    var err: int
    var url: string
    var moduleName: string
    var version: string
    var md5sum: string
    var sizeFile: nat
    var sizeFetched: nat
    var sizeLastFetched: nat
    var fetch: HttpClient
    var md5: Md5Engine.Context
    var reports: seq<Report>
    var queue: seq<Message>
    var finalised: nat

    constructor (url: string, moduleName: string, version: string, md5sum: string, sizeFile: nat, connects: bool)
      ensures Valid() && state == Fetching && sizeFetched == 0 && reports == [] && finalised == 0
      ensures fetch.open == connects && !fetch.isMore && fresh(Own())
      ensures this.moduleName == moduleName && this.version == version && this.md5sum == md5sum &&
              this.sizeFile == sizeFile
    {
      this.url, this.moduleName, this.version, this.md5sum, this.sizeFile := url, moduleName, version, md5sum, sizeFile;
      state, err, sizeFetched, sizeLastFetched, reports, queue, finalised := Fetching, 0, 0, 0, [], [], 0;
      fetch := new HttpClient(connects);
      var context := new Md5Engine.Context.Init();
      md5 := context;
      new;
      md5.Starts();
    }

    /** The objects the client owns. */
    ghost function Own(): set<object>
      reads this
    {
      {fetch, md5, md5.state, md5.buffer}
    }

    /** The context has absorbed exactly the bytes that have been counted. */
    ghost predicate Valid()
      reads this, Own()
    {
      md5.Valid() && fetch.Valid() && md5.counted == |md5.absorbed| == sizeFetched
    }

    method ReportFail(code: int, rc: Code)
      modifies `err, `reports
      ensures reports == old(reports) + [Fail(code)] && err == (if rc < 0 then rc else old(err))
    {
      reports := reports + [Fail(code)];
      if rc != SUCCESS_RET {
        err := rc;
      }
    }

    /** A failed try other than a lost connection: an expired signature, a missing file and a time-out
        are reported as such. */
    method Failed(ret: Failure, rc: Code)
      modifies `state, `err, `reports
      ensures state == Fetched && NoSuccess(old(reports), reports)
      ensures reports == old(reports) +
                           (match ret
                            case -307 => [Fail(OTA_ERRCODE_SIGNATURE_EXPIRED)]
                            case -306 => [Fail(OTA_ERRCODE_FIRMWARE_NOT_EXIST)]
                            case -308 => [Fail(OTA_ERRCODE_DOWNLOAD_TIMEOUT)]
                            case _ => [])
      ensures err < 0
    {
      state, err := Fetched, ret;
      if ret == ERR_OTA_FETCH_AUTH_FAIL {
        ReportFail(OTA_ERRCODE_SIGNATURE_EXPIRED, rc);
      } else if ret == ERR_OTA_FILE_NOT_EXIST {
        ReportFail(OTA_ERRCODE_FIRMWARE_NOT_EXIST, rc);
      } else if ret == ERR_OTA_FETCH_TIMEOUT {
        ReportFail(OTA_ERRCODE_DOWNLOAD_TIMEOUT, rc);
      } else {
        err := ERR_OTA_FETCH_FAILED;
      }
    }

    /** The retry loop of IOT_OTA_FetchYield: up to five tries, over a new connection each time the
        old one was lost. The result is the number of bytes in `buf`, all from the last try. */
    method Retry(round: Round, buf: array<byte>, ghost file: seq<byte>) returns (ret: int)
      requires state == Fetching && fetch.Valid() && buf.Length == HTTP_OTA_BUFF_LEN
      modifies `state, `err, `reports, `fetch, fetch, buf
      ensures fetch.Valid() && (fetch == old(fetch) || fresh(fetch))
      ensures ret < buf.Length && (ret >= 0 ==> state == Fetching || state == Fetched)
      ensures NoSuccess(old(reports), reports)
      ensures ret >= 0 && !old(fetch.isMore) && HonestRound(file, sizeFetched, round) ==>
                !fetch.isMore && ret == |Slice(file, sizeFetched)| && buf[..ret] == Slice(file, sizeFetched)
      ensures !old(fetch.isMore) && old(fetch.open) && Recovers(round) ==> ret >= 0 && state == Fetching && fetch.open
      ensures old(fetch.open) && AllLost(round, TRIES) ==> ret == ERR_HTTP_CONN_ERROR
    {
      hide WellServed, Recovers, RecoversAfter, AllLost, Delivered, HonestAt, Slice;
      ret := FAILURE_RET;
      var tries := 0;
      ghost var was := fetch;
      LostStep(round, 0);
      while tries < TRIES
        invariant 0 <= tries <= TRIES && ret < 0 && fetch.Valid() && (fetch == was || fresh(fetch))
        invariant state == Fetching || state == Fetched
        invariant NoSuccess(old(reports), reports)
        invariant !old(fetch.isMore) ==> !fetch.isMore || !fetch.open
        invariant tries == 0 ==> fetch == was && unchanged(was)
        invariant old(fetch.open) && AllLost(round, tries) ==>
                    state == Fetching && fetch.open && (tries > 0 ==> !fetch.isMore && ret == ERR_HTTP_CONN_ERROR)
        invariant !old(fetch.isMore) && old(fetch.open) ==> forall k :: 0 <= k < tries ==> !RecoversAfter(round, k)
      {
        var attempt := if tries < |round.attempts| then round.attempts[tries] else UNREACHABLE;
        ghost var more := fetch.isMore;
        LostStep(round, tries);
        ret := fetch.Fetch(attempt.exchange, buf);
        if ret == ERR_HTTP_CONN_ERROR && state != Disconnected {
          fetch := new HttpClient(attempt.reconnects);
          state := Fetching;
        } else if ret < 0 {
          Failed(ret, attempt.reportRc);
        } else {
          if !more && tries < |round.attempts| && HonestAt(file, sizeFetched, attempt.exchange) {
            HonestFetch(file, sizeFetched, attempt.exchange, fetch.incoming, buf[..], ret);
          }
          LostPrefix(round, tries + 1, TRIES);
          if !old(fetch.isMore) && old(fetch.open) {
            LostBefore(round, tries);
          }
          break;
        }
        tries := tries + 1;
      }
      if ret < 0 && !old(fetch.isMore) && old(fetch.open) {
        LostBefore(round, tries);
      }
    }

    /** IOT_OTA_FetchYield: what has been fetched goes into the MD5 context and is counted; once the
        announced size has been reached the fetch is over. */
    method FetchYield(round: Round, buf: array<byte>, ghost file: seq<byte>) returns (ret: int)
      requires Valid() && buf.Length == HTTP_OTA_BUFF_LEN && Apart(buf)
      modifies this, Own(), buf
      ensures Valid() && Kept()
      ensures ret < buf.Length && (old(state) != Fetching ==> ret < 0)
      ensures md5.absorbed == old(md5.absorbed) + (if ret > 0 then buf[..ret] else [])
      ensures ret > 0 ==> (state == Fetching || state == Fetched) && (sizeFetched >= sizeFile ==> state == Fetched)
      ensures ret >= 0 && !old(fetch.isMore) && HonestRound(file, old(sizeFetched), round) ==>
                !fetch.isMore && ret == |Slice(file, old(sizeFetched))| && buf[..ret] == Slice(file, old(sizeFetched))
      ensures old(state == Fetching && Serving(round)) ==>
                ret >= 0 && fetch.open && (ret > 0 && sizeFetched < sizeFile ==> state == Fetching)
    {
      hide WellServed, Recovers, HonestRound, Slice, Md5Engine.Context.Valid;
      if state != Fetching {
        err := ERR_OTA_INVALID_STATE;
        return ERR_OTA_INVALID_STATE;
      }
      ret := Retry(round, buf, file);
      if ret <= 0 {
        return;
      }
      md5.Update(buf, ret);
      sizeLastFetched := ret;
      sizeFetched := sizeFetched + ret;
      if sizeFetched >= sizeFile {
        state := Fetched;
      }
    }

    /** The buffer belongs to nobody else. */
    ghost predicate Apart(buf: array<byte>)
      reads this
    {
      buf != md5.buffer && buf as object != md5.state  // their types differ
    }

    /** What the download in progress never changes. */
    twostate predicate Kept()
      reads this
    {
      && moduleName == old(moduleName) && version == old(version) && md5sum == old(md5sum) && sizeFile == old(sizeFile)
      && md5 == old(md5) && (fetch == old(fetch) || fresh(fetch)) && finalised == old(finalised)
      && NoSuccess(old(reports), reports)
    }

    /** The round brings its bytes. */
    ghost predicate Serving(round: Round)
      reads this, fetch
    {
      !fetch.isMore && fetch.open && Recovers(round)
    }

    /** IOT_OTA_Yield through _ota_callback: a cancel for this module and version closes the
        connection; an update is queued while a download is running. */
    method Yield(messages: seq<Message>)
      requires fetch.Valid()
      modifies `state, `queue, fetch`open
      ensures fetch.Valid()
      ensures state == (if Cancelled(messages, moduleName, version) then Disconnected else old(state))
      ensures !Cancelled(messages, moduleName, version) ==> fetch.open == old(fetch.open)
      ensures queue == old(queue) + (if old(state) == Fetching then Queued(messages, moduleName, version) else [])
    {
      for i := 0 to |messages|
        invariant fetch.Valid()
        invariant state == (if Cancelled(messages[..i], moduleName, version) then Disconnected else old(state))
        invariant !Cancelled(messages[..i], moduleName, version) ==> fetch.open == old(fetch.open)
        invariant queue
                    == old(queue) + (if old(state) == Fetching then Queued(messages[..i], moduleName, version) else [])
      {
        assert messages[..i + 1] == messages[..i] + [messages[i]];
        if messages[i].Update? {
          if state == Fetching {
            queue := queue + [messages[i]];
          }
        } else if messages[i].moduleName == moduleName && messages[i].version == version {
          fetch.open := false;
          state := Disconnected;
        }
      }
      assert messages[..|messages|] == messages;
    }

    /** OTA_IOCTL_CHECK_FIRMWARE: compares the text of the digest of everything fetched with the
        announced one. */
    method CheckFirmware(rc: Code) returns (valid: bool)
      requires Valid() && state == Fetched
      modifies `err, `reports, md5, md5.state, md5.buffer
      ensures valid <==> md5sum == Md5Text.Hex(Rfc1321.Md5(old(md5.absorbed)))
      ensures if valid then unchanged(`reports, `err)
              else
                && reports == old(reports) + [Fail(OTA_ERRCODE_MD5_MISMATCH)]
                && err == (if rc < 0 then rc else ERR_OTA_MD5_MISMATCH)
    {
      hide Md5Engine.Context.Valid, Md5Text.Hex, Rfc1321.Md5, Rfc1321.DigestBytes, Rfc1321.PadAs, Rfc1321.Compress,
        Fold;
      var text := new char[33](_ => ' ');
      assert md5.counted == |md5.absorbed|;
      Md5Text.FinishHb2Hex(md5, text);
      valid := md5sum == text[..32];
      if !valid {
        err := ERR_OTA_MD5_MISMATCH;
        ReportFail(OTA_ERRCODE_MD5_MISMATCH, rc);
      }
    }

    /** One turn of the download loop: fetch, write behind what is already in the flash, pause. */
    method Turn(round: Round, buf: array<byte>, flash: Flash, total: nat, ghost file: seq<byte>)
      returns (ret: int, length: int)
      requires Valid() && buf.Length == HTTP_OTA_BUFF_LEN && Apart(buf) && total == sizeFetched
      requires total <= |flash.contents| && flash.contents[..total] == md5.absorbed
      modifies this, Own(), buf, flash
      ensures Valid() && Kept() && (ret == 0 || ret == FAILURE_RET || ret == ERR_OTA_FETCH_FAILED) &&
              (old(state) != Fetching ==> ret < 0)
      ensures ret == 0 ==>
                && length > 0 && sizeFetched == total + length <= |flash.contents| &&
                   flash.contents[..sizeFetched] == md5.absorbed
                && round.written && (state == Disconnected <==> Cancelled(round.messages, moduleName, version))
                && (state != Disconnected ==> state == Fetching || state == Fetched)
                && (sizeFetched >= sizeFile ==> state != Fetching)
      ensures ret == 0 && !old(fetch.isMore) && HonestRound(file, total, round) ==>
                !fetch.isMore && md5.absorbed == old(md5.absorbed) + Slice(file, total)
      ensures old(state == Fetching && Serving(round)) && SteadyRound(round, moduleName, version)
              && !old(fetch.isMore) && HonestRound(file, total, round) && Slice(file, total) != [] ==>
                ret == 0 && fetch.open && (sizeFetched < sizeFile ==> state == Fetching)
    {
      hide WellServed, Recovers, HonestRound, Slice, Md5Engine.Context.Valid;
      length := FetchYield(round, buf, file);
      if length <= 0 {
        return ERR_OTA_FETCH_FAILED, length;
      }
      ret := flash.Write(total, buf, length, round.written);
      if ret == FAILURE_RET {
        return;
      }
      Yield(round.messages);
    }

    /** IOT_OTA_Clear */
    method Clear()
      modifies this, fetch
      ensures Valid() && state == Inited && sizeFile == 0 && md5.absorbed == [] && fresh(md5)
      ensures reports == old(reports) && finalised == old(finalised)
    {
      hide Md5Engine.Context.Valid;
      fetch.open := false;
      url, moduleName, version, md5sum := "", "", "", "";
      sizeLastFetched, sizeFetched, sizeFile := 0, 0, 0;
      md5 := new Md5Engine.Context.Init();
      md5.Starts();
      state := Inited;
    }

    /** Turn `i` of a run. */
    method TurnOf(script: seq<Round>, i: nat, buf: array<byte>, flash: Flash, total: nat, ghost file: seq<byte>)
      returns (ret: int, length: int)
      requires Valid() && buf.Length == HTTP_OTA_BUFF_LEN && Apart(buf) && total == sizeFetched && InFlash(flash)
      modifies this, Own(), buf, flash
      ensures Valid() && Kept() && (ret == 0 || ret == FAILURE_RET || ret == ERR_OTA_FETCH_FAILED) &&
              (old(state) != Fetching ==> ret < 0)
      ensures ret == 0 ==>
                && length > 0 && sizeFetched == total + length && InFlash(flash)
                && (state == Disconnected || state == Fetched || (state == Fetching && sizeFetched < sizeFile))
                && At(script, i).written &&
                   (state == Disconnected <==> Cancelled(At(script, i).messages, moduleName, version))
      ensures ret == 0 && !old(fetch.isMore) && Honest(file, script) && old(md5.absorbed) == Front(file, i) ==>
                !fetch.isMore && md5.absorbed == Front(file, i + 1)
      ensures old(OnCourse(file, script, i)) && old(sizeFetched) < sizeFile ==>
                ret == 0 && OnCourse(file, script, i + 1)
    {
      hide WellServed, Recovers, HonestRound, SteadyRound, Slice, Front, Smooth, Honest, Md5Engine.Context.Valid;
      SmoothIsHonest(file, sizeFile, script, moduleName, version);
      SlicesTile(file, i);
      if Honest(file, script) {
        HonestTurn(file, script, i);
      }
      if OnCourse(file, script, i) && sizeFetched < sizeFile {
        SteadyTurn(file, sizeFile, script, moduleName, version, i);
      }
      ret, length := Turn(At(script, i), buf, flash, total, file);
    }

    /** A run in which nothing has gone wrong and nothing will. */
    ghost predicate OnCourse(file: seq<byte>, script: seq<Round>, i: nat)
      reads this, fetch, md5
    {
      && Smooth(file, sizeFile, script, moduleName, version) && !fetch.isMore && fetch.open
      && md5.absorbed == Front(file, i) && (state == Fetching || state == Fetched) &&
         (state == Fetched ==> sizeFetched >= sizeFile)
    }

    /** The loop of IOT_OTA_fw_download: `finished` says that it ran to its end, after `rounds` turns. */
    method Fill(script: seq<Round>, flash: Flash, ghost file: seq<byte>)
      returns (ret: int, total: nat, finished: bool, rounds: nat)
      requires Valid() && state == Fetching && sizeFetched == 0 && sizeFile > 0
      modifies this, Own(), flash
      ensures Valid() && Kept() && ret <= 0 && (finished <==> ret == 0)
      ensures ret != 0 ==> ret == FAILURE_RET || ret == ERR_OTA_FETCH_FAILED
      ensures finished ==>
                && state == Fetched && total == sizeFetched && InFlash(flash)
                && AllWent(script, rounds, moduleName, version)
      ensures finished && !old(fetch.isMore) && Honest(file, script) ==> md5.absorbed == Front(file, rounds)
      ensures !old(fetch.isMore) && old(fetch.open) && Smooth(file, sizeFile, script, moduleName, version) ==>
                finished && rounds == Needed(sizeFile) && md5.absorbed == Front(file, rounds)
    {
      hide Slice, Front, Smooth, Honest, AllWent, Cancelled, Md5Engine.Context.Valid;
      ret, total, finished, rounds := 0, 0, false, 0;
      var buf := new byte[HTTP_OTA_BUFF_LEN];
      ghost var honest := !fetch.isMore && Honest(file, script);
      FrontStarts(file);
      ghost var steady := OnCourse(file, script, 0);
      SmoothIsHonest(file, sizeFile, script, moduleName, version);
      NoneYet(script, moduleName, version);
      while state != Fetched
        invariant Valid() && Kept() && Apart(buf) && fresh(Own() - old(Own()))
        invariant total == sizeFetched && InFlash(flash) && ret == 0
        invariant AllWent(script, rounds, moduleName, version) || state == Disconnected
        invariant state == Disconnected || state == Fetched || (state == Fetching && sizeFetched < sizeFile)
        invariant honest ==> !fetch.isMore && md5.absorbed == Front(file, rounds)
        invariant steady ==> OnCourse(file, script, rounds) && (rounds > 0 ==> |Front(file, rounds - 1)| < sizeFile)
        decreases if state == Fetching then sizeFile - sizeFetched else 0
      {
        var length;
        ret, length := TurnOf(script, rounds, buf, flash, total, file);
        if ret != 0 {
          return;
        }
        if state != Disconnected {
          WentOn(script, rounds, moduleName, version);
        }
        total := total + length;
        rounds := rounds + 1;
      }
      if steady {
        NeededRounds(file, sizeFile, rounds);
      }
      finished := true;
    }

    /** IOT_OTA_fw_download. Success is reported, and the image handed over, exactly when the loop ran
        to its end, the size is the announced one and so is the digest of what stands in the flash. */
    method Download(script: seq<Round>, flash: Flash, opens: bool, ends: bool, reportRc: Code, ghost file: seq<byte>)
      returns (ret: int, finished: bool, rounds: nat, ghost image: seq<byte>)
      requires Valid() && state == Fetching && sizeFetched == 0 && sizeFile > 0
      modifies this, Own(), flash
      ensures Valid() && state == Inited && sizeFile == 0 && md5.absorbed == []
      ensures finished ==> image <= flash.contents && AllWent(script, rounds, old(moduleName), old(version))
      ensures var good := finished && Genuine(image, old(sizeFile), old(md5sum));
              && SuccessExactly(good, old(version), old(reports), reports)
              && finalised == old(finalised) + (if good then 1 else 0)
              && (ret == 0 <==> finished && if good then ends else |image| != old(sizeFile))
              && (finished && !good && ret != 0 ==> ret == (if reportRc < 0 then reportRc else ERR_OTA_MD5_MISMATCH))
              && (!finished ==> ret == FAILURE_RET || ret == ERR_OTA_FETCH_FAILED)
      ensures finished && !old(fetch.isMore) && Honest(file, script) ==> image == Front(file, rounds)
      ensures opens && !old(fetch.isMore) && old(fetch.open) &&
              Smooth(file, old(sizeFile), script, old(moduleName), old(version)) ==>
                && finished && image == Front(file, Needed(old(sizeFile)))
                && (|file| == old(sizeFile) ==> image == file)
                && (|file| > old(sizeFile) && old(sizeFile) % RANGE != 0 ==>
                    ret == 0 && NoSuccess(old(reports), reports))
    {
      hide Front, Smooth, Honest, AllWent, Cancelled, Md5Engine.Context.Valid, Md5Text.Hex, Rfc1321.Md5;
      ghost var before := reports;
      finished, rounds, image := false, 0, [];
      if !opens {
        ret := FAILURE_RET;
        Clear();
        return;
      }
      var total;
      ret, total, finished, rounds := Fill(script, flash, file);
      if |file| >= sizeFile {
        LongerFileExactly(file, sizeFile);
      }
      SmoothIsHonest(file, sizeFile, script, moduleName, version);
      image := md5.absorbed;
      if finished && total == sizeFile {
        var valid := CheckFirmware(reportRc);
        if !valid {
          ret := err;
        } else {
          FailuresOnly(before, reports, Success(version[..Min(OTA_VERSION_STR_LEN_MAX, |version|)]));
          reports := reports + [Success(version[..Min(OTA_VERSION_STR_LEN_MAX, |version|)])];
          finalised := finalised + 1;
          if !ends {
            ret := FAILURE_RET;
          }
        }
      }
      Clear();
    }

    /** The bytes absorbed stand at the front of the flash. */
    ghost predicate InFlash(flash: Flash)
      reads this, md5, flash
    {
      |md5.absorbed| <= |flash.contents| && flash.contents[..|md5.absorbed|] == md5.absorbed
    }
  }

  /** Nothing but failures has been reported since. */
  predicate NoSuccess(before: seq<Report>, after: seq<Report>) {
    before <= after && forall r :: r in after[|before|..] ==> r.Fail?
  }

  /** A response from an honest server is the slice that was asked for, and fits the buffer. */
  lemma HonestFetch(file: seq<byte>, from: nat, x: Exchange, rest: seq<byte>, buf: seq<byte>, ret: nat)
    requires HonestAt(file, from, x) && x.sendRc == 0 && x.answer.Header? && |buf| == HTTP_OTA_BUFF_LEN
    requires ret == Min(x.answer.length, |buf| - 1)
    requires Delivered(x.answer.leftover, x.answer.length, x.answer.body, rest, buf, x.answer.length - ret)
    ensures ret == |Slice(file, from)| < |buf| - 1 && buf[..ret] == Slice(file, from)
  {
    var s := Slice(file, from);
    assert |x.answer.leftover| <= |s|;
    FrontOfBody(x.answer.leftover, x.answer.length, x.answer.body, rest, buf, x.answer.length - ret);
    assert s[..ret] == s;
  }

  /** The announced size and the announced digest. */
  ghost predicate Genuine(image: seq<byte>, size: nat, md5sum: string) {
    |image| == size && Md5Text.Hex(Rfc1321.Md5(image)) == md5sum
  }

  /** Failures have been reported and then, just if it was one, a success. */
  ghost predicate SuccessExactly(good: bool, version: string, before: seq<Report>, after: seq<Report>) {
    if good then
      && after != [] && after[|after| - 1] == Success(version[..Min(OTA_VERSION_STR_LEN_MAX, |version|)])
      && NoSuccess(before, after[..|after| - 1])
    else NoSuccess(before, after)
  }

  lemma FailuresOnly(before: seq<Report>, after: seq<Report>, last: Report)
    requires NoSuccess(before, after)
    ensures NoSuccess(before, (after + [last])[..|after + [last]| - 1])
  {
    assert (after + [last])[..|after|] == after;
  }

  /** In the first `n` rounds every write worked and nobody cancelled. */
  predicate AllWent(script: seq<Round>, n: nat, moduleName: string, version: string) {
    forall i :: 0 <= i < n ==> At(script, i).written && !Cancelled(At(script, i).messages, moduleName, version)
  }

  lemma NoneYet(script: seq<Round>, moduleName: string, version: string)
    ensures AllWent(script, 0, moduleName, version)
  {
  }

  lemma WentOn(script: seq<Round>, n: nat, moduleName: string, version: string)
    requires AllWent(script, n, moduleName, version)
    requires At(script, n).written && !Cancelled(At(script, n).messages, moduleName, version)
    ensures AllWent(script, n + 1, moduleName, version)
  {
  }

  lemma FrontStarts(file: seq<byte>)
    ensures Front(file, 0) == []
  {
  }

  /** The first request that reaches the size is the last one. */
  lemma NeededRounds(file: seq<byte>, size: nat, n: nat)
    requires 0 < size <= |file| && size <= |Front(file, n)| && (n > 0 ==> |Front(file, n - 1)| < size)
    ensures n == Needed(size)
  {
    assert RANGE * (n - 1) < size <= RANGE * n;
  }

  /** What a server with more than the announced bytes has sent by then is as long as announced, if
      and only if the last range happens to end there. */
  lemma LongerFileExactly(file: seq<byte>, size: nat)
    requires size <= |file|
    ensures |Front(file, Needed(size))| == size <==> |file| == size || size % RANGE == 0
    ensures |file| == size ==> Front(file, Needed(size)) == file
  {
    var q, r := size / RANGE, size % RANGE;
    assert size == RANGE * q + r;
    if r == 0 {
      assert size + RANGE - 1 == RANGE * q + (RANGE - 1);
    } else {
      assert size + RANGE - 1 == RANGE * (q + 1) + (r - 1);
    }
    QuotientIs(size + RANGE - 1, if r == 0 then q else q + 1, if r == 0 then RANGE - 1 else r - 1);
  }

  lemma QuotientIs(a: nat, q: nat, r: nat)
    requires a == RANGE * q + r && r < RANGE
    ensures a / RANGE == q
  {
  }

  /** Consecutive slices tile the file. */
  lemma SlicesTile(file: seq<byte>, i: nat)
    ensures |Slice(file, 0)| == (if |file| < 4097 then |file| else 4097)
    ensures Front(file, i) + Slice(file, |Front(file, i)|) == Front(file, i + 1)
    ensures |Front(file, i)| < |file| ==> Slice(file, |Front(file, i)|) != []
  {
  }

  lemma HonestTurn(file: seq<byte>, script: seq<Round>, i: nat)
    requires Honest(file, script)
    ensures HonestRound(file, |Front(file, i)|, At(script, i))
  {
    assert Slice(file, RANGE * i) == Slice(file, |Front(file, i)|);
    assert HonestRound(file, RANGE * i, At(script, i));
  }

  lemma SteadyTurn(file: seq<byte>, size: nat, script: seq<Round>, moduleName: string, version: string, i: nat)
    requires Smooth(file, size, script, moduleName, version) && |Front(file, i)| < size
    ensures SteadyRound(At(script, i), moduleName, version) && !Cancelled(At(script, i).messages, moduleName, version)
    ensures Recovers(At(script, i))
  {
    hide WellServed, Recovers;
    assert i < |script|;
    assert SteadyRound(script[i], moduleName, version);
  }

  lemma SmoothIsHonest(file: seq<byte>, size: nat, script: seq<Round>, moduleName: string, version: string)
    ensures Smooth(file, size, script, moduleName, version) ==> Honest(file, script) && |file| >= size
  {
  }

  /** Against the announced digest of a file, an image is genuine exactly when its own digest is
      that of the file. */
  lemma GenuineExactly(image: seq<byte>, file: seq<byte>)
    ensures Genuine(image, |file|, Md5Text.Hex(Rfc1321.Md5(file))) <==>
              |image| == |file| && Rfc1321.Md5(image) == Rfc1321.Md5(file)
  {
    hide Md5Text.Hex, Rfc1321.Md5;
    Md5Text.HexIsInjective(Rfc1321.Md5(image), Rfc1321.Md5(file));
  }
}
