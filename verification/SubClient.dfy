/** The subscription table on the heap: the array of slots, the list of requests and the handlers
    that work on them.  Every operation is a step of the runs of `SubTable`. */
module SubClient {
  import opened Optional
  import opened LinkedList
  import opened PacketIds
  import opened PendingAcks
  import opened SubTable
  import opened TopicMatcher
  import opened TopicSpec
  import SendPath

  const SUCCESS_RET := 0
  const FAILURE_RET := -1
  const ERR_MQTT_NO_CONN := -103
  const ERR_MQTT_MAX_SUBSCRIPTIONS_REACHED := -107
  const ERR_MQTT_SUB_FAILED := -108
  const ERR_MQTT_BUFFER_TOO_SHORT := -119
  const ERR_MQTT_UNSUB_FAILED := -121

  /** How serialising and sending a request ends. */
  datatype Sending = Sent | TooLong | NotSent(rc: SendPath.SendError)

  /** An event handed to the application: the request of that kind with that id has timed out. */
  datatype TimeoutEvent = TimeoutEvent(kind: Kind, id: nat)

  function Events(reported: seq<Request>): (events: seq<TimeoutEvent>)
    ensures |events| == |reported|
  {
    seq(|reported|, i requires 0 <= i < |reported| => TimeoutEvent(reported[i].info.kind, reported[i].msgId))
  }

  class Client {
    const subHandles: array<Option<Handle>>
    const list: List<Request>
    const timeout: nat
    var nextPacketId: PacketId
    var issued: nat
    var isConnected: bool
    var now: nat
    var events: seq<TimeoutEvent>
    /** The heap: addresses handed out, strings in use, and whether a free has gone wrong. */
    var nextAddr: nat
    ghost var inUse: set<nat>
    ghost var doubleFreed: bool
    ghost const first: PacketId

    ghost predicate Valid()
      reads this, list, list.nodes
    {
      list.Valid() && subHandles.Length == MAX_SUB_TOPICS && nextPacketId == IdAfter(first, issued)
    }

    ghost function View(): State
      reads this, list, list.nodes, subHandles
    {
      State(subHandles[..], Contents(list), inUse, doubleFreed, nextAddr, first, issued, isConnected, now)
    }

    constructor (timeout: nat)
      ensures Valid() && View() == EMPTY && events == [] && this.timeout == timeout
      ensures fresh(list) && fresh(subHandles) && list.nodes == []
    {
      subHandles := new Option<Handle>[MAX_SUB_TOPICS](_ => None);
      list := new List();
      this.timeout := timeout;
      nextPacketId, issued, isConnected, now, events, nextAddr := 1, 0, false, 0, [], 0;
      inUse, doubleFreed, first := {}, false, 1;
    }

    /** HAL_Free. */
    ghost method Free(addr: nat)
      requires Valid()
      modifies `inUse, `doubleFreed
      ensures Valid() && View() == Freeing(old(View()), multiset{addr})
    {
      doubleFreed := doubleFreed || addr !in inUse;
      inUse := inUse - {addr};
    }

    /** get_next_packet_id. */
    method TakeId()
      requires Valid()
      modifies `nextPacketId, `issued
      ensures Valid() && issued == old(issued) + 1 && nextPacketId == NextId(old(nextPacketId))
    {
      nextPacketId, issued := NextId(nextPacketId), issued + 1;
    }

    /** What subscribing and unsubscribing share: copy the filter, take an id, serialise, queue, send. */
    method Ask(kind: Kind, text: string, handler: nat, qos: nat, data: nat, sending: Sending) returns (ret: int)
      requires Valid()
      modifies this, list, list.nodes
      ensures Valid() && forall n :: n in list.nodes ==> n in old(list.nodes) || fresh(n)
      ensures View() == Requested(old(View()), kind, text, handler, qos, data, timeout, sending.Sent?)
      ensures events == old(events)
      ensures ret > 0 <==> Queued(old(View()), sending.Sent?)
      ensures ret == if !isConnected then ERR_MQTT_NO_CONN
                     else if sending.TooLong? then ERR_MQTT_BUFFER_TOO_SHORT
                     else if |old(Contents(list))| >= MAX_SUB_TOPICS then ERR_MQTT_MAX_SUBSCRIPTIONS_REACHED
                     else if sending.NotSent? then sending.rc
                     else nextPacketId
    {
      hide Vals, Linked, Distinct, At;
      if !isConnected {
        return ERR_MQTT_NO_CONN;
      }
      var filter := Filter(nextAddr, text);
      nextAddr := nextAddr + 1;
      TakeId();
      hide IdAfter;
      var entry := Entry(nextPacketId, now + timeout, Normal, Info(kind, issued, Handle(filter, handler, qos, data)));
      ret := Queue(entry, sending);
      if ret == SUCCESS_RET {
        inUse := inUse + {filter.addr};
        ret := nextPacketId;
      }
    }

    /** Serialises, queues and sends; what could not be sent is taken off the list again. */
    method Queue(entry: Request, sending: Sending) returns (ret: int)
      requires list.Valid()
      modifies list, list.nodes
      ensures list.Valid() && forall n :: n in list.nodes ==> n in old(list.nodes) || fresh(n)
      ensures Contents(list) == old(Contents(list)) + if ret == SUCCESS_RET then [entry] else []
      ensures ret == if sending.TooLong? then ERR_MQTT_BUFFER_TOO_SHORT
                     else if |old(Contents(list))| >= MAX_SUB_TOPICS then ERR_MQTT_MAX_SUBSCRIPTIONS_REACHED
                     else if sending.NotSent? then sending.rc
                     else SUCCESS_RET
    {
      hide Vals, Linked, Distinct, At;
      if sending == TooLong {
        return ERR_MQTT_BUFFER_TOO_SHORT;
      }
      if list.len >= MAX_SUB_TOPICS {
        return ERR_MQTT_MAX_SUBSCRIPTIONS_REACHED;
      }
      ghost var before := Contents(list);
      var node := Enqueue(list, entry);
      if sending.NotSent? {
        Withdraw(list, node);
        assert Contents(list) == before;
        return sending.rc;
      }
      return SUCCESS_RET;
    }

    /** The SUBACK handler. */
    method HandleSuback(id: nat, nack: bool) returns (ret: int)
      requires Valid()
      modifies this, list.nodes, subHandles
      ensures Valid() && list.nodes == old(list.nodes)
      ensures View() == SubAcked(old(View()), id, nack) && events == old(events)
      ensures ret == if !Mentions(old(Contents(list)), id) || nack then ERR_MQTT_SUB_FAILED
                     else if Placed(old(subHandles[..]), FirstHandle(old(Contents(list)), id), nack) then SUCCESS_RET
                     else FAILURE_RET
    {
      hide Vals, Linked, Distinct, At;
      var found := Mask(list, id);
      if found.None? {
        NobodyMarked(old(Contents(list)), id);
        return ERR_MQTT_SUB_FAILED;
      }
      var handle := found.value.handle;
      if nack {
        Free(handle.filter.addr);
        return ERR_MQTT_SUB_FAILED;
      }
      ret := Install(handle);
    }

    /** Looks for a duplicate and for the first free slot in one pass. */
    method Install(handle: Handle) returns (ret: int)
      requires Valid()
      modifies subHandles, `inUse, `doubleFreed
      ensures Valid()
      ensures var s := old(View());
              View() == if Present(s.slots, handle) then Freeing(s, multiset{handle.filter.addr})
                        else s.(slots := Granted(s.slots, handle))
      ensures ret == if Placed(old(subHandles[..]), handle, false) then SUCCESS_RET else FAILURE_RET
    {
      ghost var slots := subHandles[..];
      var dup, free, i := false, -1, 0;
      while i < MAX_SUB_TOPICS && !dup
        invariant 0 <= i <= MAX_SUB_TOPICS && -1 <= free < i && subHandles[..] == slots
        invariant dup ==> Present(slots, handle)
        invariant !dup ==> forall j :: 0 <= j < i && slots[j].Some? ==> !Identical(slots[j].value, handle)
        invariant free == -1 && !dup ==> forall j :: 0 <= j < i ==> slots[j].Some?
        invariant free >= 0 ==> slots[free].None? && forall j :: 0 <= j < free ==> slots[j].Some?
      {
        match subHandles[i] {
          case Some(h) =>
            dup := Identical(h, handle);
          case None =>
            if free == -1 {
              free := i;
            }
        }
        i := i + 1;
      }
      if dup {
        Free(handle.filter.addr);
        return SUCCESS_RET;
      }
      if free == -1 {
        return FAILURE_RET;
      }
      subHandles[free] := Some(handle);
      return SUCCESS_RET;
    }

    /** The UNSUBACK handler; `stale` is what the uninitialised handle holds. */
    method HandleUnsuback(id: nat, stale: Option<nat>) returns (ret: int)
      requires Valid()
      modifies this, list.nodes
      ensures Valid() && list.nodes == old(list.nodes)
      ensures View() == UnsubAcked(old(View()), id, stale) && events == old(events) && ret == SUCCESS_RET
    {
      hide Vals, Linked, Distinct, At;
      var found := Mask(list, id);
      if found.Some? {
        Free(found.value.handle.filter.addr);
      } else {
        NobodyMarked(old(Contents(list)), id);
        if stale.Some? {
          Free(stale.value);
        }
      }
      return SUCCESS_RET;
    }

    /** The loop of the unsubscribe call that clears slots and frees their filters. */
    method ClearSlots(text: string) returns (found: bool)
      requires Valid()
      modifies subHandles, `inUse, `doubleFreed
      ensures Valid() && View() == SlotsCleared(old(View()), text)
      ensures found <==> AnyConcerned(old(subHandles[..]), MAX_SUB_TOPICS, text)
    {
      ghost var s := View();
      found := false;
      AnyNext(s.slots, 0, text);
      ClearedStart(s, text);
      hide AnyConcerned, ClearedTo, SlotsCleared;
      for i := 0 to MAX_SUB_TOPICS
        modifies subHandles, `inUse, `doubleFreed
        invariant Valid() && View() == ClearedTo(s, i, text) && (found <==> AnyConcerned(s.slots, i, text))
      {
        var concerned := ClearSlot(s, i, text);
        found := found || concerned;
        AnyNext(s.slots, i, text);
      }
      ClearedEnd(s, text);
    }

    /** One turn of that loop. */
    method ClearSlot(ghost s: State, i: nat, text: string) returns (concerned: bool)
      requires Valid() && i < |s.slots| == MAX_SUB_TOPICS && View() == ClearedTo(s, i, text)
      modifies subHandles, `inUse, `doubleFreed
      ensures Valid() && View() == ClearedTo(s, i + 1, text) && (concerned <==> Concerned(s.slots[i], text))
    {
      ClearedNext(s, i, text);
      hide ClearedTo;
      hide Freeing, IdAfter;
      concerned := Concerned(subHandles[i], text);
      if concerned {
        if subHandles[i].Some? {
          Free(subHandles[i].value.filter.addr);
        }
        subHandles[i] := None;
      }
    }

    /** uiot_mqtt_unsubscribe. */
    method Unsubscribe(text: string, qos: nat, sending: Sending) returns (ret: int)
      requires Valid()
      modifies this, list, list.nodes, subHandles
      ensures Valid() && events == old(events)
      ensures var found := AnyConcerned(old(subHandles[..]), MAX_SUB_TOPICS, text);
              var s := SlotsCleared(old(View()), text);
              View()
              == (if found then Requested(s, SubTable.Unsubscribe, text, 0, qos, 0, timeout, sending.Sent?) else s)
              && (!found ==> ret == ERR_MQTT_UNSUB_FAILED) && (ret > 0 <==> found && Queued(s, sending.Sent?))
    {
      var found := ClearSlots(text);
      if !found {
        return ERR_MQTT_UNSUB_FAILED;
      }
      ret := Ask(SubTable.Unsubscribe, text, 0, qos, 0, sending);
    }

    /** The sweep of the subscribe list, with an event and a free for every request that has timed
        out, from the tail of the list to its head. */
    method SubInfoProc()
      requires Valid()
      modifies this, list, list.nodes
      ensures Valid() && View() == Swept(old(View()))
      ensures events == old(events) + Events(Reports(old(Contents(list)), isConnected, now))
    {
      hide Vals, Linked, Distinct, At;
      var reported := Sweep(list, isConnected, now);
      ReportsLive(old(Contents(list)), isConnected, now);
      RaiseTimeouts(reported);
    }

    /** An event and a free for each of these requests. */
    method RaiseTimeouts(reported: seq<Request>)
      requires Valid() && forall r :: r in reported ==> Live(r)
      modifies `events, `inUse, `doubleFreed
      ensures Valid() && View() == Freeing(old(View()), RequestOwners(reported)) &&
              events == old(events) + Events(reported)
    {
      ghost var s := View();
      NothingFreed(s);
      NoneReported(reported);
      hide RequestOwners, Freeing, IdAfter, Events, Vals;
      for i := 0 to |reported|
        invariant Valid() && View() == Freeing(s, RequestOwners(reported[..i])) &&
                  events == old(events) + Events(reported[..i])
      {
        ReportedNext(s, reported, i);
        events := events + [TimeoutEvent(reported[i].info.kind, reported[i].msgId)];
        Free(reported[i].info.handle.filter.addr);
      }
      assert reported[..|reported|] == reported;
    }

    /** After a reconnect every occupied slot is subscribed again, in slot order, until one fails. */
    method Resubscribe(sendings: seq<Sending>) returns (ret: int)
      requires Valid() && |sendings| == MAX_SUB_TOPICS
      modifies this, list, list.nodes
      ensures Valid() && events == old(events)
      ensures View() == Resubscribed(old(View()), 0, timeout, Sents(sendings))
      ensures ret <= SUCCESS_RET
    {
      if !isConnected {
        NoRequests(View(), 0, timeout, Sents(sendings));
        return ERR_MQTT_NO_CONN;
      }
      for i := 0 to MAX_SUB_TOPICS
        invariant Valid() && events == old(events)
        invariant forall n :: n in list.nodes ==> n in old(list.nodes) || fresh(n)
        invariant Resubscribed(View(), i, timeout, Sents(sendings))
                    == Resubscribed(old(View()), 0, timeout, Sents(sendings))
      {
        if subHandles[i].Some? {
          var h := subHandles[i].value;
          assert forall i :: 0 <= i < |list.nodes| ==> list.nodes[i] in old(list.nodes) || fresh(list.nodes[i]);
          ret := Ask(Subscribe, h.filter.text, h.handler, h.qos, h.data, sendings[i]);
          if ret < 0 {
            return;
          }
        }
      }
      ret := SUCCESS_RET;
    }

    /** Message delivery: the first slot, in order, that receives the topic; `None` means the
        client's default event handler. */
    method Deliver(topic: string) returns (slot: Option<nat>)
      requires subHandles.Length == MAX_SUB_TOPICS && topic != ""
      ensures slot.None? ==> forall i :: 0 <= i < MAX_SUB_TOPICS ==> !Receives(subHandles[i], topic)
      ensures slot.Some? ==> slot.value < MAX_SUB_TOPICS && Receives(subHandles[slot.value], topic)
      ensures slot.Some? ==> forall i :: 0 <= i < slot.value ==> !Receives(subHandles[i], topic)
    {
      for i := 0 to MAX_SUB_TOPICS
        invariant forall j :: 0 <= j < i ==> !Receives(subHandles[j], topic)
      {
        if subHandles[i].Some? {
          var h := subHandles[i].value;
          var matched := h.filter.text == topic;
          if !matched {
            matched := IsTopicMatched(h.filter.text, topic);
          }
          if matched && h.handler != 0 {
            return Some(i);
          }
        }
      }
      return None;
    }
  }

  /** The slot has a callback, and its filter is the topic or is accepted by the matching loop. */
  predicate Receives(slot: Option<Handle>, topic: string)
    requires topic != ""
  {
    slot.Some? && slot.value.handler != 0 &&
      (slot.value.filter.text == topic || LoopAccepts(slot.value.filter.text, topic))
  }

  /** A subscription with a callback gets every message that the standard says its filter matches, and
      no other, but for the topics that the matching loop lets through in its two ways. */
  lemma ReceivesExactly(h: Handle, topic: string)
    requires ValidFilter(h.filter.text) && topic != "" && h.handler != 0
    ensures var f, t := Levels(h.filter.text), Levels(topic);
            && (TopicSpec.Matches(f, t) ==> Receives(Some(h), topic))
            && (Receives(Some(h), topic) && !TopicSpec.Matches(f, t) ==>
                  h.filter.text == topic || HashOverMatch(f, t) || PlusOverMatch(f, t))
  {
    var text := h.filter.text;
    LoopAcceptsExactly(text, topic);
    hide LoopAccepts, ValidFilter;
  }

  /** The events of a sweep: one of its kind for every request that is not answered and whose deadline has
      come on a live connection, and none for any other. */
  lemma TimeoutsExactly(p: seq<Request>, connected: bool, now: nat, x: TimeoutEvent)
    ensures x in Events(Reports(p, connected, now))
            <==> exists r :: r in p && r.state == Normal && connected && r.deadline <= now
                             && r.info.kind == x.kind && r.msgId == x.id
  {
    var q := Reports(p, connected, now);
    var e := Events(q);
    if i :| 0 <= i < |e| && e[i] == x {
      SweepDecides(p, connected, now, q[i]);
      assert q[i] in p;
    }
    if r :| r in p && r.state == Normal && connected && r.deadline <= now && r.info.kind == x.kind && r.msgId == x.id {
      SweepDecides(p, connected, now, r);
      var i :| 0 <= i < |q| && q[i] == r;
      assert e[i] == x;
    }
  }

  function Sents(sendings: seq<Sending>): (oks: seq<bool>)
    ensures |oks| == |sendings|
  {
    seq(|sendings|, i requires 0 <= i < |sendings| => sendings[i].Sent?)
  }

  lemma {:induction false} NobodyMarked(p: seq<Request>, id: nat)
    requires !Mentions(p, id)
    ensures Acked(p, id) == p
  {
    if p != [] {
      NobodyMarked(p[1..], id);
      assert Acked(p, id) == [Mark(p[0], id)] + Acked(p[1..], id);
      assert p == [p[0]] + p[1..];
    }
  }

  /** Freeing one string after others is freeing them all: the counts tell a double free either way. */
  lemma FreeingNext(s: State, m: multiset<nat>, a: nat)
    ensures Freeing(Freeing(s, m), multiset{a}) == Freeing(s, m + multiset{a})
  {
    var t := Freeing(s, m);
    assert Freeing(t, multiset{a}).inUse == Freeing(s, m + multiset{a}).inUse;
    if m <= multiset(s.inUse) {
      assert multiset{a} <= multiset(t.inUse) <==> a in s.inUse && a !in m;
      if a in s.inUse && a !in m {
        assert m + multiset{a} <= multiset(s.inUse);
      } else {
        assert (m + multiset{a})[a] > multiset(s.inUse)[a];
      }
    } else {
      var b :| m[b] > multiset(s.inUse)[b];
      assert (m + multiset{a})[b] > multiset(s.inUse)[b];
    }
  }

  lemma NothingFreed(s: State)
    ensures Freeing(s, multiset{}) == s
  {
  }

  lemma {:induction false} ReleasedConcat(a: seq<Option<Handle>>, b: seq<Option<Handle>>, text: string)
    ensures Released(a + b, text) == Released(a, text) + Released(b, text)
  {
    hide Release;
    if a == [] {
      assert a + b == b;
    } else {
      ReleasedConcat(a[1..], b, text);
      assert (a + b)[1..] == a[1..] + b;
    }
  }

  predicate AnyConcerned(slots: seq<Option<Handle>>, n: nat, text: string)
    requires n <= |slots|
  {
    exists i :: 0 <= i < n && Concerned(slots[i], text)
  }

  lemma AnyNext(slots: seq<Option<Handle>>, n: nat, text: string)
    requires n < |slots|
    ensures !AnyConcerned(slots, 0, text)
    ensures AnyConcerned(slots, n + 1, text) <==> AnyConcerned(slots, n, text) || Concerned(slots[n], text)
  {
    hide Concerned;
  }

  /** The state when the clearing loop has dealt with the first `i` slots. */
  function ClearedTo(s: State, i: nat, text: string): State
    requires i <= |s.slots|
  {
    Freeing(s.(slots := Cleared(s.slots, text)[..i] + s.slots[i..]), Released(s.slots[..i], text))
  }

  lemma ClearedStart(s: State, text: string)
    ensures ClearedTo(s, 0, text) == s
  {
    assert [] + s.slots[0..] == s.slots;
  }

  lemma ClearedEnd(s: State, text: string)
    ensures ClearedTo(s, |s.slots|, text) == SlotsCleared(s, text)
  {
    var n := |s.slots|;
    assert s.slots[..n] == s.slots && Cleared(s.slots, text)[..n] + s.slots[n..] == Cleared(s.slots, text);
  }

  lemma ClearedNext(s: State, i: nat, text: string)
    requires i < |s.slots|
    ensures var t, o := ClearedTo(s, i, text), s.slots[i];
            |t.slots| == |s.slots| && t.slots[i] == o &&
            ClearedTo(s, i + 1, text) ==
              if !Concerned(o, text) then t
              else (if o.Some? then Freeing(t, multiset{o.value.filter.addr}) else t).(slots := t.slots[i := None])
  {
    var t, o, m := ClearedTo(s, i, text), s.slots[i], Released(s.slots[..i], text);
    var c := Cleared(s.slots, text);
    assert c[..i + 1] + s.slots[i + 1..] == t.slots[i := c[i]];
    ReleasedNext(s.slots, i, text);
    hide Concerned, Released, Cleared, Freeing;
    if Concerned(o, text) {
      var u := s.(slots := t.slots[i := None]);
      assert u == s.(slots := c[..i + 1] + s.slots[i + 1..]);
      if o.Some? {
        FreeingNext(u, m, o.value.filter.addr);
      }
      SlotsAreNotFreed(s, t.slots, t.slots[i := None], m, Release(o, text));
    } else {
      assert t.slots[i := o] == t.slots;
      assert m + multiset{} == m;
    }
  }

  lemma ReleasedNext(slots: seq<Option<Handle>>, i: nat, text: string)
    requires i < |slots|
    ensures Released(slots[..i + 1], text) == Released(slots[..i], text) + Release(slots[i], text)
  {
    assert slots[..i + 1] == slots[..i] + [slots[i]];
    ReleasedConcat(slots[..i], [slots[i]], text);
    assert Released([slots[i]], text) == Release(slots[i], text) + Released([], text);
  }

  /** Freeing does not look at the slots. */
  lemma SlotsAreNotFreed(s: State, x: seq<Option<Handle>>, y: seq<Option<Handle>>, m: multiset<nat>, n: multiset<nat>)
    ensures Freeing(s.(slots := x), m).(slots := y) == Freeing(s.(slots := y), m)
    ensures Freeing(Freeing(s.(slots := x), m), n).(slots := y) == Freeing(Freeing(s.(slots := y), m), n)
  {
  }

  lemma {:induction false} ReportsLive(p: seq<Request>, connected: bool, now: nat)
    ensures forall r :: r in Reports(p, connected, now) ==> Live(r)
  {
    if p != [] {
      ReportsLive(p[1..], connected, now);
    }
  }

  lemma NoneReported(reported: seq<Request>)
    ensures RequestOwners(reported[..0]) == multiset{} && Events(reported[..0]) == []
  {
  }

  lemma ReportedNext(s: State, reported: seq<Request>, i: nat)
    requires i < |reported| && forall r :: r in reported ==> Live(r)
    ensures Freeing(Freeing(s, RequestOwners(reported[..i])), multiset{reported[i].info.handle.filter.addr})
            == Freeing(s, RequestOwners(reported[..i + 1]))
    ensures Events(reported[..i + 1])
              == Events(reported[..i]) + [TimeoutEvent(reported[i].info.kind, reported[i].msgId)]
  {
    hide RequestOwners, Freeing;
    var r := reported[i];
    assert reported[..i + 1] == reported[..i] + [r];
    RequestOwnersConcat(reported[..i], [r]);
    OwnersOfOne(r);
    FreeingNext(s, RequestOwners(reported[..i]), r.info.handle.filter.addr);
  }

  lemma {:induction false} NoRequests(s: State, i: nat, timeout: nat, oks: seq<bool>)
    requires i <= |s.slots| == |oks| && !s.connected
    ensures Resubscribed(s, i, timeout, oks) == s
    decreases |s.slots| - i
  {
    if i < |s.slots| {
      NoRequests(s, i + 1, timeout, oks);
    }
  }
}
