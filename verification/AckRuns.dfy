/** Runs of the acknowledgement bookkeeping: publishing, acknowledgements, sweeps, time and
    connection changes in any order.  An entry carries the number of its
    packet-id allocation, which tells it apart for good. */
module AckRuns {
  import opened PendingAcks
  import opened PacketIds

  /** Why an entry left the list. */
  datatype Fate = Acknowledged(serial: nat) | Expired(serial: nat) | SendFailed(serial: nat)

  /** `timeout` is the command timeout and `limit` the capacity of the list, 20 for publishes
      and 10 for subscribes. */
  datatype Config = Config(limit: nat, timeout: nat)

  datatype State = State(pending: seq<Entry<nat>>, lastId: PacketId, issued: nat, accepted: set<nat>,
                         connected: bool, now: nat, fates: seq<Fate>, acked: set<nat>)

  datatype Action =
    | Request(fits: bool, sent: bool)   // a QoS 1 publish, a subscribe or an unsubscribe
    | Ack(id: nat)
    | SweepList
    | Tick(later: nat)
    | SetConnected(connected: bool)

  function Start(id: PacketId): State {
    State([], id, 0, {}, false, 0, [], {})
  }

  /** The id is taken before anything can fail; a full list or a failed send leaves the list as
      it was. */
  function RequestStep(c: Config, s: State, fits: bool, sent: bool): State {
    if !s.connected then s
    else
      var s' := s.(lastId := NextId(s.lastId), issued := s.issued + 1);
      if !fits || |s.pending| >= c.limit then s'
      else
        var e := Entry(s'.lastId, s.now + c.timeout, Normal, s'.issued);
        var listed := s'.(accepted := s.accepted + {s'.issued});
        if sent then listed.(pending := s.pending + [e])
        else listed.(fates := s.fates + [SendFailed(s'.issued)])
  }

  /** The fates a sweep decides, in list order. */
  function SweptFates(p: seq<Entry<nat>>, connected: bool, now: nat): seq<Fate> {
    if p == [] then []
    else (if Stays(p[0], connected, now) then []
          else if TimedOut(p[0], connected, now) then [Expired(p[0].info)]
          else [Acknowledged(p[0].info)]) + SweptFates(p[1..], connected, now)
  }

  /** The entries an acknowledgement for `id` concerns. */
  function Hit(p: seq<Entry<nat>>, id: nat): set<nat> {
    set e | e in p && e.msgId == id :: e.info
  }

  function Step(c: Config, s: State, a: Action): State {
    match a
    case Request(fits, sent) => RequestStep(c, s, fits, sent)
    case Ack(id) =>
      s.(pending := Acked(s.pending, id),
         acked := s.acked + Hit(s.pending, id))
    case SweepList =>
      s.(pending := Survivors(s.pending, s.connected, s.now),
         fates := s.fates + SweptFates(s.pending, s.connected, s.now))
    case Tick(later) => s.(now := s.now + later)
    case SetConnected(b) => s.(connected := b)
  }

  function Run(c: Config, s: State, actions: seq<Action>): State
    decreases |actions|
  {
    if actions == [] then s else Run(c, Step(c, s, actions[0]), actions[1..])
  }

  // How often a serial number occurs among the pending entries and among the fates.

  function PendingCount(p: seq<Entry<nat>>, t: nat): nat {
    if p == [] then 0 else (if p[0].info == t then 1 else 0) + PendingCount(p[1..], t)
  }

  function FateCount(f: seq<Fate>, t: nat): nat {
    if f == [] then 0 else (if f[0].serial == t then 1 else 0) + FateCount(f[1..], t)
  }

  /** Every entry ever listed is pending or has left, once; nothing else is. */
  ghost predicate Conserved(s: State) {
    forall t: nat :: PendingCount(s.pending, t) + FateCount(s.fates, t) == if t in s.accepted then 1 else 0
  }

  /** While an entry is listed it is invalid exactly if it was acknowledged; an entry that left by
      acknowledgement was acknowledged, and one reported as timed out was not, then or since. */
  ghost predicate AcksRemembered(s: State) {
    (forall e :: e in s.pending ==> (e.state == Invalid <==> e.info in s.acked)) &&
    (forall f :: f in s.fates ==> (f.Acknowledged? ==> f.serial in s.acked) && (f.Expired? ==> f.serial !in s.acked))
  }

  ghost predicate Increasing(p: seq<Entry<nat>>) {
    forall i, j :: 0 <= i < j < |p| ==> p[i].info < p[j].info
  }

  /** Entries stand in the order of their requests and carry the ids of those requests. */
  ghost predicate Ordered(s: State, id: PacketId) {
    Increasing(s.pending) && s.lastId == IdAfter(id, s.issued) &&
    (forall e :: e in s.pending ==> e.info in s.accepted && e.msgId == IdAfter(id, e.info)) &&
    (forall f :: f in s.fates ==> f.serial in s.accepted) &&
    (forall t :: t in s.accepted ==> t <= s.issued) && s.acked <= s.accepted
  }

  ghost predicate Inv(c: Config, s: State, id: PacketId) {
    |s.pending| <= c.limit && Conserved(s) && AcksRemembered(s) && Ordered(s, id)
  }

  lemma PendingCountAppend(p: seq<Entry<nat>>, q: seq<Entry<nat>>, t: nat)
    ensures PendingCount(p + q, t) == PendingCount(p, t) + PendingCount(q, t)
  {
    if p == [] {
      assert p + q == q;
    } else {
      assert (p + q)[1..] == p[1..] + q;
    }
  }

  lemma FateCountAppend(f: seq<Fate>, g: seq<Fate>, t: nat)
    ensures FateCount(f + g, t) == FateCount(f, t) + FateCount(g, t)
  {
    if f == [] {
      assert f + g == g;
    } else {
      assert (f + g)[1..] == f[1..] + g;
    }
  }

  lemma {:induction false} PendingCountZero(p: seq<Entry<nat>>, t: nat)
    requires forall e :: e in p ==> e.info != t
    ensures PendingCount(p, t) == 0
  {
    if p != [] {
      PendingCountZero(p[1..], t);
    }
  }

  lemma {:induction false} AckedCount(p: seq<Entry<nat>>, id: nat, t: nat)
    ensures PendingCount(Acked(p, id), t) == PendingCount(p, t)
  {
    if p != [] {
      AckedCount(p[1..], id, t);
      assert Acked(p, id)[1..] == Acked(p[1..], id);
    }
  }

  lemma {:induction false} SweepCounts(p: seq<Entry<nat>>, connected: bool, now: nat, t: nat)
    ensures PendingCount(Survivors(p, connected, now), t) + FateCount(SweptFates(p, connected, now), t)
              == PendingCount(p, t)
  {
    if p != [] {
      SweepCounts(p[1..], connected, now, t);
      var head := if Stays(p[0], connected, now) then [p[0]] else [];
      PendingCountAppend(head, Survivors(p[1..], connected, now), t);
      var fate := if Stays(p[0], connected, now) then []
                  else if TimedOut(p[0], connected, now) then [Expired(p[0].info)]
                  else [Acknowledged(p[0].info)];
      FateCountAppend(fate, SweptFates(p[1..], connected, now), t);
    }
  }

  /** What survives was there, in the same order; what gets a fate was there, in the right state. */
  lemma {:induction false} SweepElements(p: seq<Entry<nat>>, connected: bool, now: nat)
    ensures forall e :: e in Survivors(p, connected, now) ==> e in p
    ensures forall f :: f in SweptFates(p, connected, now) ==>
              exists e :: e in p && e.info == f.serial &&
                          ((f.Expired? && TimedOut(e, connected, now)) || (f.Acknowledged? && e.state == Invalid))
  {
    if p != [] {
      SweepElements(p[1..], connected, now);
      forall f | f in SweptFates(p, connected, now)
        ensures exists e :: e in p && e.info == f.serial &&
                            ((f.Expired? && TimedOut(e, connected, now)) || (f.Acknowledged? && e.state == Invalid))
      {
        if f in SweptFates(p[1..], connected, now) {
          var e :| e in p[1..] && e.info == f.serial &&
                   ((f.Expired? && TimedOut(e, connected, now)) || (f.Acknowledged? && e.state == Invalid));
          assert e in p;
        } else {
          assert p[0] in p;
        }
      }
    }
  }

  lemma {:induction false} SurvivorsIncrease(p: seq<Entry<nat>>, connected: bool, now: nat)
    requires Increasing(p)
    ensures Increasing(Survivors(p, connected, now))
  {
    if p != [] {
      SurvivorsIncrease(p[1..], connected, now);
      SweepElements(p[1..], connected, now);
      var r := Survivors(p[1..], connected, now);
      forall j | 0 <= j < |r| ensures p[0].info < r[j].info {
        assert r[j] in p[1..];
      }
    }
  }

  /** An entry that leaves by a sweep is not pending any more, and one that stays has no fate yet. */
  lemma PendingHasNoFate(s: State, e: Entry<nat>)
    requires Conserved(s) && e in s.pending
    ensures FateCount(s.fates, e.info) == 0 && PendingCount(s.pending, e.info) == 1
  {
    PendingCountPositive(s.pending, e);
  }

  lemma {:induction false} PendingCountPositive(p: seq<Entry<nat>>, e: Entry<nat>)
    requires e in p
    ensures PendingCount(p, e.info) >= 1
  {
    if p[0] != e {
      PendingCountPositive(p[1..], e);
    }
  }

  lemma {:induction false} FateCountPositive(f: seq<Fate>, x: Fate)
    requires x in f
    ensures FateCount(f, x.serial) >= 1
  {
    if f[0] != x {
      FateCountPositive(f[1..], x);
    }
  }

  lemma RequestConserves(c: Config, s: State, id: PacketId, fits: bool, sent: bool)
    requires Inv(c, s, id)
    ensures Conserved(RequestStep(c, s, fits, sent))
  {
    var s' := RequestStep(c, s, fits, sent);
    if s.connected && fits && |s.pending| < c.limit {
      var n := s.issued + 1;
      assert n !in s.accepted;
      if sent {
        var e := s'.pending[|s.pending|];
        forall t: nat
          ensures PendingCount(s'.pending, t) + FateCount(s'.fates, t) == if t in s'.accepted then 1 else 0
        {
          PendingCountAppend(s.pending, [e], t);
        }
      } else {
        forall t: nat
          ensures PendingCount(s'.pending, t) + FateCount(s'.fates, t) == if t in s'.accepted then 1 else 0
        {
          FateCountAppend(s.fates, [SendFailed(n)], t);
        }
      }
    }
  }

  lemma RequestKeeps(c: Config, s: State, id: PacketId, fits: bool, sent: bool)
    requires Inv(c, s, id)
    ensures Inv(c, RequestStep(c, s, fits, sent), id)
  {
    RequestConserves(c, s, id, fits, sent);
    hide Conserved;
  }

  lemma AckKeeps(c: Config, s: State, id: PacketId, ack: nat)
    requires Inv(c, s, id)
    ensures Inv(c, Step(c, s, Ack(ack)), id)
  {
    var s' := Step(c, s, Ack(ack));
    forall t: nat
      ensures PendingCount(s'.pending, t) + FateCount(s'.fates, t) == if t in s'.accepted then 1 else 0
    {
      AckedCount(s.pending, ack, t);
    }
    AckIsRemembered(s, ack);
    AckKeepsOrder(s, id, ack);
    hide Conserved, AcksRemembered, Ordered;
    assert AcksRemembered(Step(Config(0, 0), s, Ack(ack)));
  }

  lemma AckKeepsOrder(s: State, id: PacketId, ack: nat)
    requires Ordered(s, id)
    ensures Ordered(Step(Config(0, 0), s, Ack(ack)), id)
  {
    var q := Acked(s.pending, ack);
    forall e | e in q ensures e.info in s.accepted && e.msgId == IdAfter(id, e.info) {
      var i :| 0 <= i < |q| && q[i] == e;
      assert s.pending[i] in s.pending && e == Mark(s.pending[i], ack);
    }
  }

  lemma AckIsRemembered(s: State, ack: nat)
    requires Conserved(s) && AcksRemembered(s) && Increasing(s.pending)
    ensures AcksRemembered(Step(Config(0, 0), s, Ack(ack)))
  {
    var p, q, hit := s.pending, Acked(s.pending, ack), Hit(s.pending, ack);
    forall e | e in q ensures e.state == Invalid <==> e.info in s.acked + hit {
      var i :| 0 <= i < |q| && q[i] == e;
      assert p[i] in p && e == Mark(p[i], ack);
      if e.info in hit {
        var x :| x in p && x.msgId == ack && x.info == e.info;
        var j :| 0 <= j < |p| && p[j] == x;
        assert i == j;
      }
    }
    forall f | f in s.fates && f.Expired? ensures f.serial !in hit {
      if f.serial in hit {
        var x :| x in p && x.msgId == ack && x.info == f.serial;
        PendingHasNoFate(s, x);
        FateCountPositive(s.fates, f);
      }
    }
  }

  lemma SweepKeeps(c: Config, s: State, id: PacketId)
    requires Inv(c, s, id)
    ensures Inv(c, Step(c, s, SweepList), id)
  {
    var s' := Step(c, s, SweepList);
    var fresh' := SweptFates(s.pending, s.connected, s.now);
    forall t: nat
      ensures PendingCount(s'.pending, t) + FateCount(s'.fates, t) == if t in s'.accepted then 1 else 0
    {
      SweepCounts(s.pending, s.connected, s.now, t);
      FateCountAppend(s.fates, fresh', t);
    }
    SweepElements(s.pending, s.connected, s.now);
    SurvivorsIncrease(s.pending, s.connected, s.now);
    forall f | f in s'.fates
      ensures f.serial in s'.accepted && (f.Acknowledged? ==> f.serial in s.acked) &&
              (f.Expired? ==> f.serial !in s.acked)
    {
      if f !in s.fates {
        assert f in fresh';
      }
    }
  }

  lemma StepKeeps(c: Config, s: State, id: PacketId, a: Action)
    requires Inv(c, s, id)
    ensures Inv(c, Step(c, s, a), id)
  {
    match a
    case Request(fits, sent) => RequestKeeps(c, s, id, fits, sent);
    case Ack(ack) => AckKeeps(c, s, id, ack);
    case SweepList => SweepKeeps(c, s, id);
    case Tick(later) =>
    case SetConnected(b) =>
  }

  /** Over every run from a fresh client: the list never outgrows its capacity, every entry ever
      listed is still pending or has left exactly once, an acknowledged entry is never among the
      timeouts, and the entries keep their order and the ids of their allocations. */
  lemma {:induction false} InvOverRuns(c: Config, s: State, id: PacketId, actions: seq<Action>)
    requires Inv(c, s, id)
    ensures Inv(c, Run(c, s, actions), id)
    decreases |actions|
  {
    if actions != [] {
      StepKeeps(c, s, id, actions[0]);
      InvOverRuns(c, Step(c, s, actions[0]), id, actions[1..]);
    }
  }

  lemma StartSatisfiesInv(c: Config, id: PacketId)
    ensures Inv(c, Start(id), id)
  {
  }

  // ---- When a request leaves the list ----

  /** Some sweep of the run comes on a live connection at or after the deadline. */
  predicate SweptLate(c: Config, s: State, actions: seq<Action>, deadline: nat)
    decreases |actions|
  {
    actions != [] &&
    ((actions[0].SweepList? && s.connected && s.now >= deadline)
     || SweptLate(c, Step(c, s, actions[0]), actions[1..], deadline))
  }

  lemma {:induction false} FatesStay(c: Config, s: State, actions: seq<Action>, f: Fate)
    requires f in s.fates
    ensures f in Run(c, s, actions).fates
    decreases |actions|
  {
    if actions != [] {
      FatesStay(c, Step(c, s, actions[0]), actions[1..], f);
    }
  }

  lemma {:induction false} FateOfSwept(p: seq<Entry<nat>>, connected: bool, now: nat, e: Entry<nat>)
    requires e in p
    ensures e.state == Normal && connected && e.deadline <= now ==> Expired(e.info) in SweptFates(p, connected, now)
    ensures e.state == Invalid ==> Acknowledged(e.info) in SweptFates(p, connected, now)
  {
    if p[0] != e {
      FateOfSwept(p[1..], connected, now, e);
    }
  }

  /** While it is not answered a request stays through everything but a late sweep. */
  lemma StepWaits(c: Config, s: State, e: Entry<nat>, a: Action)
    requires e in s.pending && e.state == Normal && a != Ack(e.msgId)
    ensures var t := Step(c, s, a);
            if a.SweepList? && s.connected && s.now >= e.deadline then Expired(e.info) in t.fates else e in t.pending
  {
    match a
    case Ack(id) =>
      var i :| 0 <= i < |s.pending| && s.pending[i] == e;
      assert Acked(s.pending, id)[i] == e;
    case SweepList =>
      SweepDecides(s.pending, s.connected, s.now, e);
      FateOfSwept(s.pending, s.connected, s.now, e);
    case _ =>
  }

  lemma FateOrPending(s: State, e: Entry<nat>, f: Fate)
    requires Conserved(s) && f.serial == e.info
    ensures !(e in s.pending && f in s.fates)
  {
    if e in s.pending && f in s.fates {
      PendingHasNoFate(s, e);
      FateCountPositive(s.fates, f);
    }
  }

  /** A request that is not answered is pending until a sweep comes on a live connection at or after its
      deadline, whatever else happens; then, and only then, it is reported as timed out. */
  lemma {:induction false} WaitsExactly(c: Config, s: State, id: PacketId, e: Entry<nat>, actions: seq<Action>)
    requires Inv(c, s, id) && e in s.pending && e.state == Normal && Ack(e.msgId) !in actions
    ensures var t := Run(c, s, actions);
            && (e in t.pending <==> !SweptLate(c, s, actions, e.deadline))
            && (Expired(e.info) in t.fates <==> SweptLate(c, s, actions, e.deadline))
    decreases |actions|
  {
    hide Inv, Step;
    InvOverRuns(c, s, id, actions);
    Excludes(c, Run(c, s, actions), id, e);
    if actions != [] {
      var a, u := actions[0], Step(c, s, actions[0]);
      StepWaits(c, s, e, a);
      StepKeeps(c, s, id, a);
      if a.SweepList? && s.connected && s.now >= e.deadline {
        FatesStay(c, u, actions[1..], Expired(e.info));
      } else {
        WaitsExactly(c, u, id, e, actions[1..]);
      }
    }
  }

  lemma Excludes(c: Config, t: State, id: PacketId, e: Entry<nat>)
    requires Inv(c, t, id)
    ensures !(e in t.pending && Expired(e.info) in t.fates)
    ensures !(e in t.pending && Acknowledged(e.info) in t.fates)
    ensures !(Expired(e.info) in t.fates && Acknowledged(e.info) in t.fates)
  {
    FateOrPending(t, e, Expired(e.info));
    FateOrPending(t, e, Acknowledged(e.info));
  }

  /** So a request that is listed and sent is reported as timed out if and only if it is not answered
      and a sweep comes, on a live connection, when the command timeout has passed. */
  lemma RequestTimesOutExactly(c: Config, s: State, id: PacketId, actions: seq<Action>)
    requires Inv(c, s, id) && s.connected && |s.pending| < c.limit && Ack(NextId(s.lastId)) !in actions
    ensures var u := Step(c, s, Request(true, true));
            var t, n := Run(c, u, actions), s.issued + 1;
            && (Expired(n) in t.fates <==> SweptLate(c, u, actions, s.now + c.timeout))
            && ((exists e :: e in t.pending && e.info == n) <==> !SweptLate(c, u, actions, s.now + c.timeout))
  {
    var u, n := Step(c, s, Request(true, true)), s.issued + 1;
    var e := u.pending[|s.pending|];
    assert e.deadline == s.now + c.timeout && e.state == Normal && e.info == n && e in u.pending;
    StepKeeps(c, s, id, Request(true, true));
    hide Inv, Step;
    WaitsExactly(c, u, id, e, actions);
    InvOverRuns(c, u, id, actions);
    var t := Run(c, u, actions);
    if x :| x in t.pending && x.info == n {
      Excludes(c, t, id, x);
    }
  }

  /** With nothing but a pause of `d` between the request and the sweep: if and only if `d` is not
      shorter than the timeout. */
  lemma SweptAfterPause(c: Config, s: State, id: PacketId, d: nat)
    requires Inv(c, s, id) && s.connected && |s.pending| < c.limit
    ensures var t, n := Run(c, s, [Request(true, true), Tick(d), SweepList]), s.issued + 1;
            && ((exists e :: e in t.pending && e.info == n) <==> d < c.timeout)
            && (Expired(n) in t.fates <==> d >= c.timeout)
  {
    hide Inv, Run, SweptLate, RequestStep;
    var u := Step(c, s, Request(true, true));
    Connected(c, s);
    RequestTimesOutExactly(c, s, id, [Tick(d), SweepList]);
    var deadline := s.now + c.timeout;
    FirstAction(c, s, Request(true, true), [Tick(d), SweepList], deadline);
    FirstAction(c, u, Tick(d), [SweepList], deadline);
    FirstAction(c, u.(now := u.now + d), SweepList, [], deadline);
    NeverLate(c, Step(c, u.(now := u.now + d), SweepList), deadline);
    assert [Request(true, true)] + [Tick(d), SweepList] == [Request(true, true), Tick(d), SweepList];
    assert [Tick(d)] + [SweepList] == [Tick(d), SweepList] && [SweepList] + [] == [SweepList];
  }

  lemma Connected(c: Config, s: State)
    ensures var u := Step(c, s, Request(true, true)); u.connected == s.connected && u.now == s.now
  {
  }

  lemma FirstAction(c: Config, s: State, a: Action, rest: seq<Action>, deadline: nat)
    ensures Run(c, s, [a] + rest) == Run(c, Step(c, s, a), rest)
    ensures SweptLate(c, s, [a] + rest, deadline)
            <==> (a.SweepList? && s.connected && s.now >= deadline) || SweptLate(c, Step(c, s, a), rest, deadline)
  {
    hide Step;
    assert ([a] + rest)[0] == a && ([a] + rest)[1..] == rest;
  }

  lemma NeverLate(c: Config, s: State, deadline: nat)
    ensures !SweptLate(c, s, [], deadline)
  {
  }

  /** A request that has been answered while it waited goes with the next sweep, connected or not, and is
      never reported as timed out. */
  lemma {:induction false} AnsweredLeavesExactly(c: Config, s: State, id: PacketId, e: Entry<nat>, actions: seq<Action>)
    requires Inv(c, s, id) && e in s.pending && e.state == Invalid
    ensures var t := Run(c, s, actions);
            && (Acknowledged(e.info) in t.fates <==> SweepList in actions) &&
               (e in t.pending <==> SweepList !in actions)
            && Expired(e.info) !in t.fates
    decreases |actions|
  {
    hide Inv, Step;
    InvOverRuns(c, s, id, actions);
    Excludes(c, Run(c, s, actions), id, e);
    if actions != [] {
      var a, u := actions[0], Step(c, s, actions[0]);
      AnsweredStep(c, s, e, a);
      StepKeeps(c, s, id, a);
      if a == SweepList {
        FatesStay(c, u, actions[1..], Acknowledged(e.info));
      } else {
        AnsweredLeavesExactly(c, u, id, e, actions[1..]);
      }
    }
  }

  lemma AnsweredStep(c: Config, s: State, e: Entry<nat>, a: Action)
    requires e in s.pending && e.state == Invalid
    ensures var t := Step(c, s, a); if a == SweepList then Acknowledged(e.info) in t.fates else e in t.pending
  {
    match a
    case Ack(id) =>
      var i :| 0 <= i < |s.pending| && s.pending[i] == e;
      assert Acked(s.pending, id)[i] == e;
    case SweepList => FateOfSwept(s.pending, s.connected, s.now, e);
    case _ =>
  }

  /** An acknowledgement makes that of every waiting request with its id. */
  lemma AckAnswers(c: Config, s: State, e: Entry<nat>)
    requires e in s.pending
    ensures e.(state := Invalid) in Step(c, s, Ack(e.msgId)).pending
  {
    var i :| 0 <= i < |s.pending| && s.pending[i] == e;
    assert Acked(s.pending, e.msgId)[i] == e.(state := Invalid);
  }

  /** Two entries pending at the same time have the same id only if at least 65535 allocations lie
      between their requests. */
  lemma PendingIdsDistinct(c: Config, s: State, id: PacketId, i: nat, j: nat)
    requires Inv(c, s, id) && i < j < |s.pending|
    requires s.pending[j].info - s.pending[i].info < MAX_PACKET_ID
    ensures s.pending[i].msgId != s.pending[j].msgId
  {
    assert s.pending[i] in s.pending && s.pending[j] in s.pending;
    IdsRepeatExactly(id, s.pending[i].info, s.pending[j].info);
  }
}
