// Keep-alive and reconnect back-off: uiot/mqtt/src/mqtt_client_yield.c, with the connection flags of
// mqtt_client_connect.c and the ping bookkeeping of mqtt_client_common.c.
module KeepAlive {
  const SUCCESS_RET := 0
  const FAILURE_RET := -1
  const MQTT_RECONNECTED := 1
  const MQTT_MANUALLY_DISCONNECTED := 2
  const ERR_MQTT_NO_CONN := -103
  const ERR_MQTT_ATTEMPTING_RECONNECT := -105
  const ERR_MQTT_RECONNECT_TIMEOUT := -106
  const ERR_TCP_READ_FAILED := -606
  const ERR_TCP_PEER_SHUTDOWN := -608
  const ERR_SSL_READ_TIMEOUT := -707
  const ERR_SSL_READ_FAILED := -708
  const MQTT_PING_RETRY_TIMES := 2
  const MIN_RECONNECT_WAIT_INTERVAL := 1000
  const MAX_RECONNECT_WAIT_INTERVAL := 60000

  /** Acknowledgements and ping responses restart the ping timer, a PUBLISH only clears the count. */
  datatype Kind = Acknowledgement | Publication | Other

  /** What an attempt to reconnect comes to; the session can be up although resubscribing failed. */
  datatype Attempt = Reconnected | Refused | NotResubscribed

  /** One iteration of the loop of uiot_mqtt_yield: time passes, a packet may come in, reading ends
      with a code, a ping may or may not be sent, a reconnect takes its time. */
  datatype Event = Event(delay: nat, packets: seq<Kind>, rc: int, pingSent: bool, attempt: Attempt, took: nat)

  /** The timers are times in milliseconds. `expiries`, `failures`, `waiting` and `since` record how
      often the ping timer was found expired since something came in, how many reconnects failed
      since the connection was lost, whether it was, and when the present wait began. */
  datatype Link = Link(connected: bool, manual: bool, auto: bool, infinite: bool, keepAlive: nat, outstanding: nat,
                       pingAt: nat,
                       wait: nat, retryAt: nat, now: nat, expiries: nat, failures: nat, waiting: bool, since: nat)

  function Min(a: nat, b: nat): nat { if a <= b then a else b }

  function Pow2(k: nat): (p: nat)
    ensures p >= 1
  {
    if k == 0 then 1 else 2 * Pow2(k - 1)
  }

  /** The wait after `k` failures in a row. */
  function Backoff(k: nat): nat { Min(MIN_RECONNECT_WAIT_INTERVAL * Pow2(k), MAX_RECONNECT_WAIT_INTERVAL) }

  /** _handle_disconnect of a connected client: not a manual one. */
  function Dropped(s: Link): Link {
    if s.connected then s.(connected := false, manual := false) else s
  }

  /** _handle_pingresp_packet and the like, for one packet. */
  function Heard(s: Link, k: Kind): Link {
    match k
    case Acknowledgement => s.(outstanding := 0, expiries := 0, pingAt := s.now + 1000 * s.keepAlive)
    case Publication => s.(outstanding := 0, expiries := 0)
    case Other => s
  }

  function HeardAll(s: Link, packets: seq<Kind>): Link {
    if packets == [] then s else Heard(HeardAll(s, packets[..|packets| - 1]), packets[|packets| - 1])
  }

  predicate PingDue(s: Link) { s.keepAlive > 0 && s.now >= s.pingAt }

  /** _mqtt_keep_alive */
  function Pinged(s: Link, sent: bool): (Link, int) {
    if !PingDue(s) then (s, SUCCESS_RET)
    else if s.outstanding >= MQTT_PING_RETRY_TIMES || !sent then (Dropped(s), ERR_MQTT_NO_CONN)
    else (s.(outstanding := s.outstanding + 1, expiries := s.expiries + 1,
             pingAt := s.now + 1000 * Min(5, s.keepAlive / 2)), SUCCESS_RET)
  }

  predicate RetryDue(s: Link) { s.now >= s.retryAt }

  /** _handle_reconnect with uiot_mqtt_attempt_reconnect. */
  function Retried(s: Link, a: Attempt, took: nat): (Link, int) {
    if !RetryDue(s) then (s, ERR_MQTT_ATTEMPTING_RECONNECT)
    else
      var t := s.(now := s.now + took);
      var up := t.(connected := true, manual := false, outstanding := 0, expiries := 0,
                   pingAt := t.now + 1000 * t.keepAlive);
      if a.Reconnected? then (up, MQTT_RECONNECTED)
      else
        var u := if a.Refused? then t else up;
        var w := 2 * u.wait;
        if w > MAX_RECONNECT_WAIT_INTERVAL && !u.infinite then
          (u.(wait := w, failures := u.failures + 1), ERR_MQTT_RECONNECT_TIMEOUT)
        else
          var w' := Min(w, MAX_RECONNECT_WAIT_INTERVAL);
          (u.(wait := w', retryAt := u.now + w', failures := u.failures + 1, since := u.now),
           ERR_MQTT_ATTEMPTING_RECONNECT)
  }

  predicate LinkLost(rc: int) {
    rc == ERR_SSL_READ_TIMEOUT || rc == ERR_SSL_READ_FAILED || rc == ERR_TCP_PEER_SHUTDOWN || rc == ERR_TCP_READ_FAILED
  }

  /** What a connected client does after reading. */
  function AfterRead(s: Link, e: Event): (Link, int) {
    if e.rc == SUCCESS_RET then Pinged(s, e.pingSent)
    else if LinkLost(e.rc) then (Dropped(s), ERR_MQTT_NO_CONN)
    else if e.rc == FAILURE_RET then (s, SUCCESS_RET)
    else (s, e.rc)
  }

  /** A lost connection starts the waiting. */
  function Lost(s: Link): Link {
    s.(wait := MIN_RECONNECT_WAIT_INTERVAL, retryAt := s.now + MIN_RECONNECT_WAIT_INTERVAL, failures := 0,
       waiting := true, since := s.now)
  }

  /** Having lost the connection, wait for a reconnect or leave the loop; leave it on other codes too. */
  function Settled(s: Link, rc: int): (Link, int, bool) {
    if rc != ERR_MQTT_NO_CONN then (s, rc, rc != SUCCESS_RET)
    else if s.auto then (Lost(s), ERR_MQTT_ATTEMPTING_RECONNECT, false)
    else (s, rc, true)
  }

  /** One iteration: the new state, the code so far, and whether the loop is left. */
  function Turn(s: Link, e: Event): (Link, int, bool) {
    var t := s.(now := s.now + e.delay);
    if t.connected then
      var (u, rc) := AfterRead(HeardAll(t, e.packets), e);
      Settled(u, rc)
    else if t.wait > MAX_RECONNECT_WAIT_INTERVAL then (t, ERR_MQTT_RECONNECT_TIMEOUT, true)
    else
      var (u, rc) := Retried(t, e.attempt, e.took);
      (u, rc, false)
  }

  /** What every iteration keeps. */
  ghost predicate Inv(s: Link) {
    && s.outstanding <= MQTT_PING_RETRY_TIMES && (s.connected ==> s.outstanding == s.expiries)
    && (s.infinite ==>
        s.wait == (if s.waiting then Backoff(s.failures) else 0) && (s.waiting ==> s.retryAt == s.since + s.wait))
  }

  lemma {:induction false} HeardKeeps(s: Link, packets: seq<Kind>)
    requires Inv(s)
    ensures Inv(HeardAll(s, packets)) && HeardAll(s, packets).infinite == s.infinite &&
            HeardAll(s, packets).now == s.now
  {
    if packets != [] {
      HeardKeeps(s, packets[..|packets| - 1]);
    }
  }

  lemma BackoffDoubles(k: nat)
    ensures Backoff(k + 1) == Min(2 * Backoff(k), MAX_RECONNECT_WAIT_INTERVAL)
    ensures MIN_RECONNECT_WAIT_INTERVAL <= Backoff(k) <= MAX_RECONNECT_WAIT_INTERVAL
  {
    assert Pow2(k + 1) == 2 * Pow2(k);
  }

  lemma ReadKeeps(s: Link, e: Event)
    requires Inv(s)
    ensures var (t, rc) := AfterRead(s, e);
            Inv(t) && t.infinite == s.infinite && (rc == e.rc || rc == SUCCESS_RET || rc == ERR_MQTT_NO_CONN)
  {
  }

  lemma SettledKeeps(s: Link, rc: int)
    requires Inv(s)
    ensures Inv(Settled(s, rc).0) && Settled(s, rc).0.infinite == s.infinite
    ensures Settled(s, rc).1 == ERR_MQTT_RECONNECT_TIMEOUT <==> rc == ERR_MQTT_RECONNECT_TIMEOUT
  {
    assert Backoff(0) == MIN_RECONNECT_WAIT_INTERVAL;
  }

  lemma RetriedKeeps(s: Link, a: Attempt, took: nat)
    requires Inv(s)
    ensures var (t, rc) := Retried(s, a, took);
            Inv(t) && t.infinite == s.infinite && (s.infinite ==> rc != ERR_MQTT_RECONNECT_TIMEOUT)
  {
    BackoffDoubles(s.failures);
  }

  lemma LaterKeeps(s: Link, delay: nat)
    requires Inv(s)
    ensures Inv(s.(now := s.now + delay)) && (s.infinite ==> s.wait <= MAX_RECONNECT_WAIT_INTERVAL)
  {
    BackoffDoubles(s.failures);
  }

  /** Every iteration keeps the invariant; with infinite reconnect none of them times out, unless
      reading itself comes back with that code. */
  lemma TurnKeeps(s: Link, e: Event)
    requires Inv(s)
    ensures Inv(Turn(s, e).0) && Turn(s, e).0.infinite == s.infinite
    ensures s.infinite && Turn(s, e).1 == ERR_MQTT_RECONNECT_TIMEOUT ==>
              s.connected && e.rc == ERR_MQTT_RECONNECT_TIMEOUT
  {
    hide Inv, AfterRead, Settled, Retried;
    var t := s.(now := s.now + e.delay);
    LaterKeeps(s, e.delay);
    HeardKeeps(t, e.packets);
    var (u, rc) := AfterRead(HeardAll(t, e.packets), e);
    ReadKeeps(HeardAll(t, e.packets), e);
    SettledKeeps(u, rc);
    RetriedKeeps(t, e.attempt, e.took);
  }

  function Run(s: Link, events: seq<Event>): Link {
    if events == [] then s else Turn(Run(s, events[..|events| - 1]), events[|events| - 1]).0
  }

  lemma {:induction false} InvOverRuns(s: Link, events: seq<Event>)
    requires Inv(s)
    ensures Inv(Run(s, events)) && Run(s, events).infinite == s.infinite
  {
    if events != [] {
      var n := |events| - 1;
      InvOverRuns(s, events[..n]);
      TurnKeeps(Run(s, events[..n]), events[n]);
    }
  }

  /** A reconnect is tried in the iteration. */
  predicate Tries(s: Link, e: Event) {
    !s.connected && s.wait <= MAX_RECONNECT_WAIT_INTERVAL && RetryDue(s.(now := s.now + e.delay))
  }

  /** After `k` failed reconnects in a row the next one waits 1000 * 2^k milliseconds, at most 60000,
      from the last one or from the loss of the connection; and it is tried as soon as that is over. */
  lemma RetriesBackOff(s: Link, events: seq<Event>, e: Event)
    requires Inv(s) && s.infinite && Run(s, events).waiting && !Run(s, events).connected
    ensures var t := Run(s, events); Tries(t, e) <==> t.now + e.delay >= t.since + Backoff(t.failures)
  {
    InvOverRuns(s, events);
    BackoffDoubles(Run(s, events).failures);
  }

  /** An iteration in which a reconnect is tried ends connected if and only if the server took the
      client back, whatever became of the subscriptions; then no ping is outstanding and the ping timer
      has a whole interval to go. Otherwise the wait doubles, up to a minute. */
  lemma ReconnectsExactly(s: Link, e: Event)
    requires !s.connected && s.wait <= 60000 && s.now + e.delay >= s.retryAt
    ensures var (t, rc, leave) := Turn(s, e);
            && (t.connected <==> e.attempt.Reconnected? || e.attempt.NotResubscribed?)
            && (t.connected ==> t.outstanding == 0 && t.pingAt == t.now + 1000 * s.keepAlive && !t.manual)
            && (!t.connected ==> t.outstanding == s.outstanding && t.pingAt == s.pingAt && t.manual == s.manual)
            && t.now == s.now + e.delay + e.took && !leave
            && (e.attempt.Reconnected? ==> rc == MQTT_RECONNECTED && t.wait == s.wait && t.retryAt == s.retryAt)
            && (!e.attempt.Reconnected? && !s.infinite && 2 * s.wait > 60000 ==> rc == ERR_MQTT_RECONNECT_TIMEOUT)
            && (!e.attempt.Reconnected? && (s.infinite || 2 * s.wait <= 60000) ==>
                  && rc == ERR_MQTT_ATTEMPTING_RECONNECT
                  && t.wait == (if 2 * s.wait <= 60000 then 2 * s.wait else 60000) && t.retryAt == t.now + t.wait)
  {
  }

  /** Before the wait is over nothing changes but the time. */
  lemma WaitsBeforeRetry(s: Link, e: Event)
    requires !s.connected && s.wait <= 60000 && s.now + e.delay < s.retryAt
    ensures Turn(s, e) == (s.(now := s.now + e.delay), ERR_MQTT_ATTEMPTING_RECONNECT, false)
  {
  }

  /** What has come in: anything that counts clears the pings, and an acknowledgement among it restarts
      the timer. */
  lemma {:induction false} HeardExactly(s: Link, packets: seq<Kind>)
    ensures var t := HeardAll(s, packets);
            && t.outstanding == (if Acknowledgement in packets || Publication in packets then 0 else s.outstanding)
            && t.pingAt == (if Acknowledgement in packets then s.now + 1000 * s.keepAlive else s.pingAt)
            && t.connected == s.connected && t.now == s.now && t.keepAlive == s.keepAlive && t.manual == s.manual
            && t.auto == s.auto && t.infinite == s.infinite && t.wait == s.wait && t.retryAt == s.retryAt
  {
    if packets != [] {
      HeardExactly(s, packets[..|packets| - 1]);
    }
  }

  lemma ReadExactly(s: Link, e: Event)
    requires s.connected
    ensures var (t, rc) := AfterRead(s, e);
            var due := e.rc == SUCCESS_RET && s.keepAlive > 0 && s.now >= s.pingAt;
            && t.now == s.now && t.manual == (t.connected && s.manual) && t.auto == s.auto
            && (!t.connected <==> e.rc in {-606, -608, -707, -708} || (due && (s.outstanding >= 2 || !e.pingSent)))
            && (t.connected && due ==>
                  t.outstanding == s.outstanding + 1
                  && t.pingAt == s.now + (if s.keepAlive >= 10 then 5000 else 1000 * (s.keepAlive / 2)))
            && (t.connected && !due ==> t.outstanding == s.outstanding && t.pingAt == s.pingAt)
            && (!t.connected ==> rc == ERR_MQTT_NO_CONN)
            && (t.connected ==> rc == (if e.rc == FAILURE_RET then SUCCESS_RET else e.rc))
  {
  }

  lemma SettledExactly(s: Link, rc: int)
    ensures var (t, rc', leave) := Settled(s, rc);
            && t.connected == s.connected && t.manual == s.manual && t.now == s.now
            && t.outstanding == s.outstanding && t.pingAt == s.pingAt
            && (rc == ERR_MQTT_NO_CONN && s.auto ==>
                  rc' == ERR_MQTT_ATTEMPTING_RECONNECT && !leave && t.wait == 1000 && t.retryAt == s.now + 1000)
            && (rc == ERR_MQTT_NO_CONN && !s.auto ==> rc' == ERR_MQTT_NO_CONN && leave)
            && (rc != ERR_MQTT_NO_CONN ==> rc' == rc && (leave <==> rc != SUCCESS_RET))
  {
  }

  /** An iteration of a connected client: the connection is lost if and only if reading fails on the
      network, or a ping is due and either two are outstanding already or it cannot be sent. A lost one is
      tried again after a second, or reported. */
  lemma LosesExactly(s: Link, e: Event)
    requires s.connected
    ensures var (t, rc, leave) := Turn(s, e);
            var now := s.now + e.delay;
            var outstanding := if Acknowledgement in e.packets || Publication in e.packets then 0 else s.outstanding;
            var pingAt := if Acknowledgement in e.packets then now + 1000 * s.keepAlive else s.pingAt;
            var due := e.rc == SUCCESS_RET && s.keepAlive > 0 && now >= pingAt;
            && t.now == now && t.manual == (t.connected && s.manual)
            && (!t.connected <==> e.rc in {-606, -608, -707, -708} || (due && (outstanding >= 2 || !e.pingSent)))
            && (t.connected && due ==>
                  t.outstanding == outstanding + 1
                  && t.pingAt == now + (if s.keepAlive >= 10 then 5000 else 1000 * (s.keepAlive / 2)))
            && (t.connected && !due ==> t.outstanding == outstanding && t.pingAt == pingAt)
            && (!t.connected && s.auto ==>
                  rc == ERR_MQTT_ATTEMPTING_RECONNECT && !leave && t.wait == 1000 && t.retryAt == now + 1000)
            && (!t.connected && !s.auto ==> rc == ERR_MQTT_NO_CONN && leave)
            && (t.connected && e.rc != ERR_MQTT_NO_CONN ==>
                  rc == (if e.rc == FAILURE_RET then SUCCESS_RET else e.rc) && (leave <==> rc != SUCCESS_RET))
  {
    hide HeardAll, AfterRead, Settled;
    var t := s.(now := s.now + e.delay);
    HeardExactly(t, e.packets);
    var h := HeardAll(t, e.packets);
    ReadExactly(h, e);
    SettledExactly(AfterRead(h, e).0, AfterRead(h, e).1);
  }

  /** Nothing comes in during the iteration, and the ping timer is looked at. */
  predicate Silent(e: Event) {
    e.rc == SUCCESS_RET && forall k :: k in e.packets ==> k.Other?
  }

  lemma {:induction false} HeardNothing(s: Link, packets: seq<Kind>)
    requires forall k :: k in packets ==> k.Other?
    ensures HeardAll(s, packets) == s
  {
    if packets != [] {
      assert packets[|packets| - 1] in packets;
      HeardNothing(s, packets[..|packets| - 1]);
    }
  }

  /** In how many iterations of a run that stays connected the ping timer is found expired. */
  function Expiries(s: Link, events: seq<Event>): nat {
    if events == [] then 0
    else
      var t := Run(s, events[..|events| - 1]);
      Expiries(s, events[..|events| - 1]) + (if PingDue(t.(now := t.now + events[|events| - 1].delay)) then 1 else 0)
  }

  ghost predicate StaysConnected(s: Link, events: seq<Event>) {
    forall k :: 0 <= k <= |events| ==> Run(s, events[..k]).connected
  }

  /** A silent iteration that leaves the client connected has counted the expiry it found. */
  lemma SilentTurn(t: Link, e: Event)
    requires Inv(t) && t.connected && Silent(e) && Turn(t, e).0.connected
    ensures Turn(t, e).0.outstanding == t.outstanding + (if PingDue(t.(now := t.now + e.delay)) then 1 else 0)
  {
    HeardNothing(t.(now := t.now + e.delay), e.packets);
  }

  /** While nothing comes in, a connected client survives two expiries of the ping timer at most:
      the third one disconnects it. */
  lemma {:induction false} ThirdExpiryDisconnects(s: Link, events: seq<Event>)
    requires Inv(s) && StaysConnected(s, events) && forall e :: e in events ==> Silent(e)
    ensures Run(s, events).outstanding == s.outstanding + Expiries(s, events) <= MQTT_PING_RETRY_TIMES
  {
    hide Turn, Silent, PingDue;
    InvOverRuns(s, events);
    if events != [] {
      var n := |events| - 1;
      var t := Run(s, events[..n]);
      Before(s, events, n);
      ThirdExpiryDisconnects(s, events[..n]);
      InvOverRuns(s, events[..n]);
      assert events[n] in events;
      SilentTurn(t, events[n]);
    }
  }

  /** What a silent iteration does to the timer: it is restarted at most five seconds ahead. */
  lemma SilentTimer(t: Link, e: Event)
    requires Inv(t) && t.connected && t.keepAlive > 0 && Silent(e) && Turn(t, e).0.connected && t.now <= t.pingAt
    ensures var u, due := Turn(t, e).0, PingDue(t.(now := t.now + e.delay));
            && u.now <= u.pingAt && u.keepAlive == t.keepAlive
            && u.pingAt <= if due then t.pingAt + e.delay + 5000 else t.pingAt
  {
    HeardNothing(t.(now := t.now + e.delay), e.packets);
  }

  /** In time: if no iteration is more than `pace` milliseconds after the one before, a silent
      connection is given up at most two pauses of five seconds, and two delays, after the ping timer
      has first run out. */
  lemma {:induction false} SilentLinkIsDroppedInTime(s: Link, events: seq<Event>, pace: nat)
    requires Inv(s) && s.keepAlive > 0 && s.now <= s.pingAt && StaysConnected(s, events)
    requires forall e :: e in events ==> Silent(e) && e.delay <= pace
    ensures var t := Run(s, events);
            && t.now <= t.pingAt <= s.pingAt + Expiries(s, events) * (5000 + pace)
            && t.now <= s.pingAt + 2 * (5000 + pace) && t.keepAlive == s.keepAlive
  {
    hide Turn, Silent, PingDue;
    ThirdExpiryDisconnects(s, events);
    AtMostTwo(Expiries(s, events), 5000 + pace);
    if events != [] {
      var n := |events| - 1;
      var t := Run(s, events[..n]);
      Before(s, events, n);
      SilentLinkIsDroppedInTime(s, events[..n], pace);
      InvOverRuns(s, events[..n]);
      assert events[n] in events;
      SilentTimer(t, events[n]);
      OneMore(Expiries(s, events[..n]), 5000 + pace);
    }
  }

  lemma OneMore(n: nat, c: nat)
    ensures (n + 1) * c == n * c + c && (n + 0) * c == n * c
  {
  }

  lemma AtMostTwo(n: nat, c: nat)
    ensures n <= 2 ==> n * c <= 2 * c
  {
  }

  lemma Before(s: Link, events: seq<Event>, n: nat)
    requires n < |events| && StaysConnected(s, events)
    ensures StaysConnected(s, events[..n]) && Run(s, events[..n]).connected && Run(s, events).connected
  {
    hide Run;
    assert events[..|events|] == events;
    forall k | 0 <= k <= n
      ensures Run(s, events[..n][..k]).connected
    {
      assert events[..n][..k] == events[..k];
    }
  }

  /** The connection state of UIoT_Client. */
  class Client {
    var isConnected: bool
    var wasManuallyDisconnected: bool
    const autoConnectEnable: bool
    const infiniteReconnect: bool
    const keepAliveInterval: nat
    var isPingOutstanding: nat
    var pingTimer: nat
    var currentReconnectWaitInterval: nat
    var reconnectDelayTimer: nat
    var now: nat
    ghost var expiries: nat
    ghost var failures: nat
    ghost var waiting: bool
    ghost var since: nat

    ghost function View(): Link
      reads this
    {
      Link(isConnected, wasManuallyDisconnected, autoConnectEnable, infiniteReconnect, keepAliveInterval,
           isPingOutstanding, pingTimer,
           currentReconnectWaitInterval, reconnectDelayTimer, now, expiries, failures, waiting, since)
    }

    constructor (auto: bool, infinite: bool, keepAlive: nat)
      ensures Inv(View()) && isConnected && autoConnectEnable == auto && infiniteReconnect == infinite &&
              keepAliveInterval == keepAlive
    {
      autoConnectEnable, infiniteReconnect, keepAliveInterval := auto, infinite, keepAlive;
      isConnected, wasManuallyDisconnected, isPingOutstanding, pingTimer := true, false, 0, 1000 * keepAlive;
      currentReconnectWaitInterval, reconnectDelayTimer, now := 0, 0, 0;
      expiries, failures, waiting, since := 0, 0, false, 0;
    }

    method HandleDisconnect() returns (ret: int)
      modifies this
      ensures View() == Dropped(old(View())) && ret == ERR_MQTT_NO_CONN
    {
      if !isConnected {
        return ERR_MQTT_NO_CONN;
      }
      isConnected, wasManuallyDisconnected := false, true;
      wasManuallyDisconnected := false;
      ret := ERR_MQTT_NO_CONN;
    }

    /** The switch at the end of cycle_for_read. */
    method HandlePacket(kind: Kind)
      modifies this
      ensures View() == Heard(old(View()), kind)
    {
      match kind
      case Acknowledgement =>
        isPingOutstanding, expiries := 0, 0;
        pingTimer := now + 1000 * keepAliveInterval;
      case Publication =>
        isPingOutstanding, expiries := 0, 0;
      case Other =>
    }

    method Ping(sent: bool) returns (ret: int)
      modifies this
      ensures (View(), ret) == Pinged(old(View()), sent)
    {
      if keepAliveInterval == 0 {
        return SUCCESS_RET;
      }
      if now < pingTimer {
        return SUCCESS_RET;
      }
      if isPingOutstanding >= MQTT_PING_RETRY_TIMES {
        ret := HandleDisconnect();
        return;
      }
      if !sent {
        ret := HandleDisconnect();
        return;
      }
      isPingOutstanding, expiries := isPingOutstanding + 1, expiries + 1;
      pingTimer := now + 1000 * Min(5, keepAliveInterval / 2);
      ret := SUCCESS_RET;
    }

    /** The state that _mqtt_connect sets. */
    method Connected()
      modifies this
      ensures var s := old(View());
              View() == s.(connected := true, manual := false, outstanding := 0, expiries := 0,
                           pingAt := s.now + 1000 * s.keepAlive)
    {
      isConnected, wasManuallyDisconnected := true, false;
      isPingOutstanding, expiries := 0, 0;
      pingTimer := now + 1000 * keepAliveInterval;
    }

    method HandleReconnect(attempt: Attempt, took: nat) returns (ret: int)
      modifies this
      ensures (View(), ret) == Retried(old(View()), attempt, took)
    {
      if now < reconnectDelayTimer {
        return ERR_MQTT_ATTEMPTING_RECONNECT;
      }
      now := now + took;
      if !attempt.Refused? {
        Connected();
      }
      if attempt.Reconnected? {
        return MQTT_RECONNECTED;
      }
      failures := failures + 1;
      currentReconnectWaitInterval := currentReconnectWaitInterval * 2;
      if MAX_RECONNECT_WAIT_INTERVAL < currentReconnectWaitInterval {
        if infiniteReconnect {
          currentReconnectWaitInterval := MAX_RECONNECT_WAIT_INTERVAL;
        } else {
          return ERR_MQTT_RECONNECT_TIMEOUT;
        }
      }
      reconnectDelayTimer, since := now + currentReconnectWaitInterval, now;
      ret := ERR_MQTT_ATTEMPTING_RECONNECT;
    }

    /** Reading and what follows it, for a connected client. */
    method Serve(e: Event) returns (ret: int)
      modifies this
      ensures (View(), ret) == AfterRead(HeardAll(old(View()), e.packets), e)
    {
      hide Pinged, Dropped, Heard;
      ghost var t := View();
      for i := 0 to |e.packets|
        invariant View() == HeardAll(t, e.packets[..i])
      {
        HandlePacket(e.packets[i]);
        assert e.packets[..i + 1][..i] == e.packets[..i];
      }
      assert e.packets[..|e.packets|] == e.packets;
      ret := e.rc;
      if ret == SUCCESS_RET {
        ret := Ping(e.pingSent);
      } else if LinkLost(ret) {
        ret := HandleDisconnect();
      } else if ret == FAILURE_RET {
        ret := SUCCESS_RET;
      }
    }

    /** The body of the loop. */
    method Iterate(e: Event) returns (ret: int, leave: bool)
      modifies this
      ensures (View(), ret, leave) == Turn(old(View()), e)
    {
      hide AfterRead, HeardAll, Retried;
      now := now + e.delay;
      if !isConnected {
        if currentReconnectWaitInterval > MAX_RECONNECT_WAIT_INTERVAL {
          return ERR_MQTT_RECONNECT_TIMEOUT, true;
        }
        ret := HandleReconnect(e.attempt, e.took);
        return ret, false;
      }
      ret := Serve(e);
      if ret == ERR_MQTT_NO_CONN {
        if autoConnectEnable {
          currentReconnectWaitInterval := MIN_RECONNECT_WAIT_INTERVAL;
          reconnectDelayTimer := now + currentReconnectWaitInterval;
          failures, waiting, since := 0, true, now;
          return ERR_MQTT_ATTEMPTING_RECONNECT, false;
        }
        return ret, true;
      }
      leave := ret != SUCCESS_RET;
    }

    /** uiot_mqtt_yield: iterations until the time is over or one of them leaves the loop. */
    method Yield(timeout: nat, events: seq<Event>) returns (ret: int, turns: nat)
      requires Inv(View())
      modifies this
      ensures Inv(View()) && turns <= |events| && View() == Run(old(View()), events[..turns])
      ensures !old(isConnected) && old(wasManuallyDisconnected) ==> ret == MQTT_MANUALLY_DISCONNECTED && turns == 0
      ensures !old(isConnected) && !old(wasManuallyDisconnected) && !autoConnectEnable ==>
                ret == ERR_MQTT_NO_CONN && turns == 0
      ensures infiniteReconnect && (forall e :: e in events ==> e.rc != ERR_MQTT_RECONNECT_TIMEOUT) ==>
                ret != ERR_MQTT_RECONNECT_TIMEOUT
    {
      hide Inv, Turn;
      ret, turns := SUCCESS_RET, 0;
      if !isConnected && wasManuallyDisconnected {
        return MQTT_MANUALLY_DISCONNECTED, turns;
      }
      if !isConnected && !autoConnectEnable {
        return ERR_MQTT_NO_CONN, turns;
      }
      var end, leave := now + timeout, false;
      ghost var start := View();
      while now < end && !leave && turns < |events|
        invariant Inv(View()) && turns <= |events| && View() == Run(start, events[..turns])
        invariant infiniteReconnect && (forall e :: e in events ==> e.rc != ERR_MQTT_RECONNECT_TIMEOUT) ==>
                    ret != ERR_MQTT_RECONNECT_TIMEOUT
        decreases |events| - turns
      {
        TurnKeeps(View(), events[turns]);
        assert events[..turns + 1][..turns] == events[..turns];
        ret, leave := Iterate(events[turns]);
        turns := turns + 1;
      }
    }
  }
}
