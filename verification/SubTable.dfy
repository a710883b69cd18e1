/** The subscription table and who owns the filter strings: requests wait in a list, SUBACKs move
    a filter into the table, unsubscribing clears slots. */
module SubTable {
  import opened Optional
  import opened PacketIds
  import opened PendingAcks
  import opened TopicSpec

  const MAX_SUB_TOPICS := 10

  /** A filter string on the heap; `addr` tells allocations apart. */
  datatype Filter = Filter(addr: nat, text: string)

  /** `handler` is the callback, 0 standing for a null pointer. */
  datatype Handle = Handle(filter: Filter, handler: nat, qos: nat, data: nat)

  datatype Kind = Subscribe | Unsubscribe

  /** What the subscribe list adds to a pending entry; `serial` counts the packet-id allocations. */
  datatype Info = Info(kind: Kind, serial: nat, handle: Handle)

  type Request = Entry<Info>

  /** `first` is the packet id before the first allocation. `doubleFreed` records that a string has
      been freed that was not allocated. */
  datatype State = State(slots: seq<Option<Handle>>, pending: seq<Request>, inUse: set<nat>, doubleFreed: bool,
                         nextAddr: nat, first: PacketId, issued: nat, connected: bool, now: nat)

  predicate Live(r: Request) { r.state == Normal }

  predicate Identical(a: Handle, b: Handle) {
    a.filter.text == b.filter.text && a.handler == b.handler
  }

  predicate Present(slots: seq<Option<Handle>>, h: Handle) {
    exists i :: 0 <= i < |slots| && slots[i].Some? && Identical(slots[i].value, h)
  }

  predicate HasFreeSlot(slots: seq<Option<Handle>>) {
    exists i :: 0 <= i < |slots| && slots[i].None?
  }

  function FirstFree(slots: seq<Option<Handle>>): (i: nat)
    ensures i <= |slots| && (i < |slots| <==> HasFreeSlot(slots)) && (i < |slots| ==> slots[i].None?)
    ensures forall j :: 0 <= j < i ==> slots[j].Some?
  {
    if slots == [] || slots[0].None? then 0
    else
      var i := 1 + FirstFree(slots[1..]);
      assert forall j :: 0 < j < |slots| ==> slots[j] == slots[1..][j - 1];
      i
  }

  /** What becomes of the table when the server has granted `h`. */
  function Granted(slots: seq<Option<Handle>>, h: Handle): (t: seq<Option<Handle>>)
    ensures |t| == |slots|
  {
    if Present(slots, h) || !HasFreeSlot(slots) then slots else slots[FirstFree(slots) := Some(h)]
  }

  /** Occupied slots are pairwise different in filter text and callback. */
  ghost predicate NoDuplicates(slots: seq<Option<Handle>>) {
    forall i, j :: 0 <= i < j < |slots| && slots[i].Some? && slots[j].Some? ==>
      !Identical(slots[i].value, slots[j].value)
  }

  /** The addresses of the filters that slots and live requests hold, with multiplicity. */
  function SlotOwners(slots: seq<Option<Handle>>): multiset<nat> {
    if slots == [] then multiset{}
    else (if slots[0].Some? then multiset{slots[0].value.filter.addr} else multiset{}) + SlotOwners(slots[1..])
  }

  function RequestOwners(pending: seq<Request>): multiset<nat> {
    if pending == [] then multiset{}
    else
      (if Live(pending[0]) then multiset{pending[0].info.handle.filter.addr} else multiset{})
      + RequestOwners(pending[1..])
  }

  function Owners(s: State): multiset<nat> { SlotOwners(s.slots) + RequestOwners(s.pending) }

  /** Every allocated filter has exactly one owner and nobody holds a freed one; nothing has been
      freed that was not allocated: no leak, no dangling pointer, no double free. */
  ghost predicate Owned(s: State) {
    Owners(s) == multiset(s.inUse) && !s.doubleFreed && forall a :: a in s.inUse ==> a < s.nextAddr
  }

  /** Requests stand in the order of their allocations and carry the ids of those. */
  ghost predicate Numbered(s: State) {
    Increasing(s.pending) &&
    forall r :: r in s.pending ==> r.info.serial <= s.issued && r.msgId == IdAfter(s.first, r.info.serial)
  }

  ghost predicate Increasing(p: seq<Request>) {
    forall i, j :: 0 <= i < j < |p| ==> p[i].info.serial < p[j].info.serial
  }

  ghost predicate Inv(s: State) {
    |s.slots| == MAX_SUB_TOPICS && |s.pending| <= MAX_SUB_TOPICS && NoDuplicates(s.slots) && Owned(s) && Numbered(s)
  }

  /** No listed request is older than the ids take to come round. */
  predicate Recent(s: State) {
    forall r :: r in s.pending ==> s.issued - r.info.serial < MAX_PACKET_ID
  }

  // ---- What each operation does to the state ----

  /** HAL_Free of the strings with these addresses. */
  function Freeing(s: State, m: multiset<nat>): State {
    s.(inUse := s.inUse - (set a | a in m), doubleFreed := s.doubleFreed || !(m <= multiset(s.inUse)))
  }

  predicate Queued(s: State, ok: bool) { s.connected && ok && |s.pending| < MAX_SUB_TOPICS }

  /** A new filter is allocated and an id taken; if the request cannot be queued, or not be serialised
      and sent (`ok`), the filter is freed again.  Without a connection nothing happens. */
  function Requested(s: State, kind: Kind, text: string, handler: nat, qos: nat, data: nat, timeout: nat,
                     ok: bool): State {
    var h := Handle(Filter(s.nextAddr, text), handler, qos, data);
    var t := s.(nextAddr := s.nextAddr + 1, issued := s.issued + 1);
    if !s.connected then s
    else if Queued(s, ok) then
      t.(pending := s.pending + [Entry(IdAfter(s.first, t.issued), s.now + timeout, Normal, Info(kind, t.issued, h))],
         inUse := s.inUse + {s.nextAddr})
    else t
  }

  predicate Mentions(p: seq<Request>, id: nat) { FirstInfo(p, id).Some? }

  function FirstHandle(p: seq<Request>, id: nat): Handle
    requires Mentions(p, id)
  {
    FirstInfo(p, id).value.handle
  }

  /** A SUBACK: refused or redundant filters are freed, a new one moves into the first free slot. */
  function SubAcked(s: State, id: nat, nack: bool): State {
    if !Mentions(s.pending, id) then s
    else
      var h, t := FirstHandle(s.pending, id), s.(pending := Acked(s.pending, id));
      if nack || Present(s.slots, h) then Freeing(t, multiset{h.filter.addr}) else t.(slots := Granted(s.slots, h))
  }

  /** An UNSUBACK frees the copy of the filter that the unsubscribe request had made; for an id that
      nothing is listed under it frees whatever the uninitialised handle holds. */
  function UnsubAcked(s: State, id: nat, stale: Option<nat>): State {
    if Mentions(s.pending, id) then
      Freeing(s.(pending := Acked(s.pending, id)), multiset{FirstHandle(s.pending, id).filter.addr})
    else if stale.Some? then Freeing(s, multiset{stale.value})
    else s
  }

  predicate ContainsPair(text: string, c: char) {
    exists i :: 0 <= i < |text| - 1 && text[i] == '/' && text[i + 1] == c
  }

  predicate HasInnerWildcard(text: string) {
    ContainsPair(text, '#') || ContainsPair(text, '+')
  }

  predicate Concerned(slot: Option<Handle>, text: string) {
    (slot.Some? && slot.value.filter.text == text) || HasInnerWildcard(text)
  }

  function Cleared(slots: seq<Option<Handle>>, text: string): (r: seq<Option<Handle>>)
    ensures |r| == |slots| && forall i :: 0 <= i < |r| ==> r[i] == if Concerned(slots[i], text) then None else slots[i]
  {
    if slots == [] then [] else [if Concerned(slots[0], text) then None else slots[0]] + Cleared(slots[1..], text)
  }

  /** The filters that clearing frees. */
  function Released(slots: seq<Option<Handle>>, text: string): multiset<nat> {
    if slots == [] then multiset{} else Release(slots[0], text) + Released(slots[1..], text)
  }

  function Release(slot: Option<Handle>, text: string): multiset<nat> {
    if slot.Some? && Concerned(slot, text) then multiset{slot.value.filter.addr} else multiset{}
  }

  function SlotsCleared(s: State, text: string): State {
    Freeing(s.(slots := Cleared(s.slots, text)), Released(s.slots, text))
  }

  /** A sweep: answered requests go, expired ones go and free their filter, the rest stay. */
  function Swept(s: State): State {
    Freeing(s.(pending := Survivors(s.pending, s.connected, s.now)),
            RequestOwners(Reports(s.pending, s.connected, s.now)))
  }

  // ---- Owners ----

  lemma SlotOwnersConcat(s: seq<Option<Handle>>, t: seq<Option<Handle>>)
    ensures SlotOwners(s + t) == SlotOwners(s) + SlotOwners(t)
  {
    if s == [] {
      assert s + t == t;
    } else {
      assert (s + t)[1..] == s[1..] + t;
    }
  }

  lemma SlotOwnersUpdate(slots: seq<Option<Handle>>, i: nat, v: Option<Handle>)
    requires i < |slots|
    ensures SlotOwners(slots[i := v]) + SlotOwners([slots[i]]) == SlotOwners(slots) + SlotOwners([v])
  {
    assert slots == slots[..i] + [slots[i]] + slots[i + 1..];
    assert slots[i := v] == slots[..i] + [v] + slots[i + 1..];
    SlotOwnersConcat(slots[..i] + [slots[i]], slots[i + 1..]);
    SlotOwnersConcat(slots[..i], [slots[i]]);
    SlotOwnersConcat(slots[..i] + [v], slots[i + 1..]);
    SlotOwnersConcat(slots[..i], [v]);
  }

  lemma RequestOwnersConcat(p: seq<Request>, q: seq<Request>)
    ensures RequestOwners(p + q) == RequestOwners(p) + RequestOwners(q)
  {
    if p == [] {
      assert p + q == q;
    } else {
      assert (p + q)[1..] == p[1..] + q;
    }
  }

  lemma RequestOwnersUpdate(p: seq<Request>, k: nat, r: Request)
    requires k < |p|
    ensures RequestOwners(p[k := r]) + RequestOwners([p[k]]) == RequestOwners(p) + RequestOwners([r])
  {
    assert p == p[..k] + [p[k]] + p[k + 1..];
    assert p[k := r] == p[..k] + [r] + p[k + 1..];
    RequestOwnersConcat(p[..k] + [p[k]], p[k + 1..]);
    RequestOwnersConcat(p[..k], [p[k]]);
    RequestOwnersConcat(p[..k] + [r], p[k + 1..]);
    RequestOwnersConcat(p[..k], [r]);
  }

  lemma OwnersOfOne(r: Request)
    ensures RequestOwners([r]) == if Live(r) then multiset{r.info.handle.filter.addr} else multiset{}
  {
  }

  /** Freeing strings that are held by nobody else leaves the others to their owners, and is no double
      free. */
  lemma FreeingKeeps(s: State, rest: multiset<nat>, m: multiset<nat>)
    requires multiset(s.inUse) == rest + m
    ensures multiset(Freeing(s, m).inUse) == rest && Freeing(s, m).doubleFreed == s.doubleFreed
  {
    var t := Freeing(s, m);
    forall a: nat
      ensures multiset(t.inUse)[a] == rest[a]
    {
      assert multiset(s.inUse)[a] == rest[a] + m[a] <= 1;
    }
    assert m <= multiset(s.inUse);
  }

  /** Freeing a string that the state already counts all owners of breaks ownership: somebody still
      holds it, or it was free before. */
  lemma FreeingBreaks(s: State, a: nat)
    requires Owners(s) == multiset(s.inUse)
    ensures !Owned(Freeing(s, multiset{a}))
  {
    var t := Freeing(s, multiset{a});
    assert Owners(t) == Owners(s);
    if a in s.inUse {
      assert Owners(t)[a] == 1 && multiset(t.inUse)[a] == 0;
    } else {
      assert multiset{a}[a] > multiset(s.inUse)[a];
    }
  }

  // ---- Ids ----

  /** While no request is older than the ids take to come round, ids tell the requests apart. */
  lemma IdsDistinct(s: State, i: nat, j: nat)
    requires Numbered(s) && Recent(s) && i < |s.pending| && j < |s.pending| && s.pending[i].msgId == s.pending[j].msgId
    ensures i == j
  {
    var p := s.pending;
    assert p[i] in p && p[j] in p;
    if i < j {
      IdsRepeatExactly(s.first, p[i].info.serial, p[j].info.serial);
    } else if j < i {
      IdsRepeatExactly(s.first, p[j].info.serial, p[i].info.serial);
    }
  }

  /** The only request with an id is the one that is found, and the one that is marked. */
  lemma TheRequest(s: State, id: nat) returns (k: nat)
    requires Numbered(s) && Recent(s) && Mentions(s.pending, id)
    ensures k < |s.pending| && s.pending[k].msgId == id && FirstInfo(s.pending, id) == Some(s.pending[k].info)
    ensures Acked(s.pending, id) == s.pending[k := s.pending[k].(state := Invalid)]
  {
    k := FirstAt(s.pending, id);
    forall j | 0 <= j < |s.pending|
      ensures Acked(s.pending, id)[j] == s.pending[k := s.pending[k].(state := Invalid)][j]
    {
      if s.pending[j].msgId == id {
        IdsDistinct(s, j, k);
      }
    }
  }

  lemma {:induction false} FirstAt(p: seq<Request>, id: nat) returns (k: nat)
    requires Mentions(p, id)
    ensures k < |p| && p[k].msgId == id && FirstInfo(p, id) == Some(p[k].info)
  {
    if p[0].msgId == id {
      k := 0;
    } else {
      k := FirstAt(p[1..], id);
      k := k + 1;
    }
  }

  // ---- Each operation keeps the invariant ----

  lemma RequestKeeps(s: State, kind: Kind, text: string, handler: nat, qos: nat, data: nat, timeout: nat, ok: bool)
    requires Inv(s)
    ensures Inv(Requested(s, kind, text, handler, qos, data, timeout, ok))
  {
    var t := Requested(s, kind, text, handler, qos, data, timeout, ok);
    if Queued(s, ok) {
      var r := t.pending[|s.pending|];
      RequestOwnersConcat(s.pending, [r]);
      OwnersOfOne(r);
      assert multiset(t.inUse) == multiset(s.inUse) + multiset{s.nextAddr};
    }
  }

  /** The answer finds something to do with the filter: it is refused, it is redundant, or a slot is
      free. */
  predicate Placed(slots: seq<Option<Handle>>, h: Handle, nack: bool) {
    nack || Present(slots, h) || HasFreeSlot(slots)
  }

  lemma GrantedDistinct(slots: seq<Option<Handle>>, h: Handle)
    requires NoDuplicates(slots)
    ensures NoDuplicates(Granted(slots, h))
  {
  }

  lemma GrantedOwners(slots: seq<Option<Handle>>, h: Handle)
    requires !Present(slots, h) && HasFreeSlot(slots)
    ensures SlotOwners(Granted(slots, h)) == SlotOwners(slots) + multiset{h.filter.addr}
  {
    var i := FirstFree(slots);
    SlotOwnersUpdate(slots, i, Some(h));
    assert SlotOwners([slots[i]]) == multiset{};
    assert SlotOwners([Some(h)]) == multiset{h.filter.addr};
  }

  lemma AckedIsNumbered(s: State, t: State, id: nat)
    requires Numbered(s) && t.pending == Acked(s.pending, id) && t.first == s.first && t.issued == s.issued
    ensures Numbered(t)
  {
    forall r | r in t.pending
      ensures r.info.serial <= t.issued && r.msgId == IdAfter(t.first, r.info.serial)
    {
      var i :| 0 <= i < |t.pending| && t.pending[i] == r;
      assert s.pending[i] in s.pending && r == Mark(s.pending[i], id);
    }
  }

  /** A request with the id still waits for its answer. */
  predicate Waits(p: seq<Request>, id: nat) {
    exists r :: r in p && r.msgId == id && Live(r)
  }

  /** The state in which the answer has been noted and nothing else done. */
  function Noted(s: State, id: nat): State { s.(pending := Acked(s.pending, id)) }

  /** Noting the answer releases the filter of the request, if it still waited. */
  lemma AnswerReleases(s: State, id: nat)
    requires Inv(s) && Recent(s) && Mentions(s.pending, id)
    ensures Owners(s) == Owners(Noted(s, id))
              + (if Waits(s.pending, id) then multiset{FirstHandle(s.pending, id).filter.addr} else multiset{})
    ensures Numbered(Noted(s, id)) && |Noted(s, id).pending| == |s.pending|
  {
    hide RequestOwners, SlotOwners;
    var p := s.pending;
    var k := TheRequest(s, id);
    var r := p[k];
    RequestOwnersUpdate(p, k, r.(state := Invalid));
    OwnersOfOne(r);
    OwnersOfOne(r.(state := Invalid));
    AckedIsNumbered(s, Noted(s, id), id);
    assert r in p;
    if Waits(p, id) {
      var q :| q in p && q.msgId == id && Live(q);
      var j :| 0 <= j < |p| && p[j] == q;
      IdsDistinct(s, j, k);
    }
    var a := r.info.handle.filter.addr;
    assert Live(r) <==> Waits(p, id);
    assert FirstHandle(p, id) == r.info.handle;
    var held := if Live(r) then multiset{a} else multiset{};
    assert RequestOwners(Noted(s, id).pending) + held == RequestOwners(p) + multiset{} == RequestOwners(p);
    assert Owners(s) == Owners(Noted(s, id)) + held;
  }

  /** An answer to a listed request, the first or a later one: every filter keeps exactly one owner if
      and only if the request still waited and the filter finds a place, or neither. */
  lemma SubAckKeepsExactly(s: State, id: nat, nack: bool)
    requires Inv(s) && Recent(s) && Mentions(s.pending, id)
    ensures Inv(SubAcked(s, id, nack)) <==>
              (Waits(s.pending, id) <==> Placed(s.slots, FirstHandle(s.pending, id), nack))
  {
    hide RequestOwners, SlotOwners, Mentions, FirstHandle, Numbered, NoDuplicates, Present, HasFreeSlot, Granted, Waits;
    AnswerReleases(s, id);
    var h, u, t := FirstHandle(s.pending, id), Noted(s, id), SubAcked(s, id, nack);
    var a := h.filter.addr;
    SameNumbers(u, t);
    GrantedDistinct(s.slots, h);
    if nack || Present(s.slots, h) {
      if Waits(s.pending, id) {
        FreeingKeeps(u, Owners(u), multiset{a});
      } else {
        FreeingBreaks(u, a);
      }
    } else if HasFreeSlot(s.slots) {
      GrantedOwners(s.slots, h);
      assert Owners(t) == Owners(u) + multiset{a};
      if !Waits(s.pending, id) {
        assert Owners(t)[a] != multiset(s.inUse)[a];
      }
    } else {
      FullTable(s.slots, h);
      if Waits(s.pending, id) {
        assert Owners(t)[a] + 1 == multiset(t.inUse)[a];
      }
    }
  }

  lemma FullTable(slots: seq<Option<Handle>>, h: Handle)
    requires !HasFreeSlot(slots)
    ensures Granted(slots, h) == slots
  {
  }

  lemma SameNumbers(u: State, t: State)
    requires Numbered(u) && t.pending == u.pending && t.first == u.first && t.issued == u.issued
    ensures Numbered(t)
  {
  }

  /** An UNSUBACK: if and only if it answers a request that waited, or there is none and the
      uninitialised handle happens to be null. */
  lemma UnsubAckKeepsExactly(s: State, id: nat, stale: Option<nat>)
    requires Inv(s) && Recent(s)
    ensures Inv(UnsubAcked(s, id, stale)) <==> if Mentions(s.pending, id) then Waits(s.pending, id) else stale.None?
  {
    hide RequestOwners, SlotOwners, Mentions, FirstHandle, Numbered, NoDuplicates, Waits;
    var t := UnsubAcked(s, id, stale);
    if Mentions(s.pending, id) {
      AnswerReleases(s, id);
      var u, a := Noted(s, id), FirstHandle(s.pending, id).filter.addr;
      SameNumbers(u, t);
      if Waits(s.pending, id) {
        FreeingKeeps(u, Owners(u), multiset{a});
      } else {
        FreeingBreaks(u, a);
      }
    } else if stale.Some? {
      FreeingBreaks(s, stale.value);
    }
  }

  lemma {:induction false} ClearedOwners(slots: seq<Option<Handle>>, text: string)
    ensures SlotOwners(slots) == SlotOwners(Cleared(slots, text)) + Released(slots, text)
  {
    hide Concerned;
    if slots != [] {
      ClearedOwners(slots[1..], text);
    }
  }

  lemma ClearedDistinct(slots: seq<Option<Handle>>, text: string)
    requires NoDuplicates(slots)
    ensures NoDuplicates(Cleared(slots, text))
  {
    hide Concerned, Identical;
  }

  lemma ClearKeeps(s: State, text: string)
    requires Inv(s)
    ensures Inv(SlotsCleared(s, text))
  {
    ClearedDistinct(s.slots, text);
    ClearedOwners(s.slots, text);
    hide NoDuplicates, Cleared, Released, SlotOwners, RequestOwners;
    var u, m := s.(slots := Cleared(s.slots, text)), Released(s.slots, text);
    assert Owners(s) == Owners(u) + m;
    FreeingKeeps(u, Owners(u), m);
    SameNumbers(s, SlotsCleared(s, text));
  }

  lemma {:induction false} SweptOwners(p: seq<Request>, connected: bool, now: nat)
    ensures RequestOwners(p) == RequestOwners(Survivors(p, connected, now)) + RequestOwners(Reports(p, connected, now))
  {
    if p != [] {
      SweptOwners(p[1..], connected, now);
      SweptHead(p, connected, now);
    }
  }

  /** What the head adds to either side. */
  lemma SweptHead(p: seq<Request>, connected: bool, now: nat)
    requires p != []
    ensures RequestOwners(p) == RequestOwners([p[0]]) + RequestOwners(p[1..])
    ensures RequestOwners(Survivors(p, connected, now)) + RequestOwners(Reports(p, connected, now)) ==
            RequestOwners([p[0]]) + RequestOwners(Survivors(p[1..], connected, now))
                + RequestOwners(Reports(p[1..], connected, now))
  {
    hide RequestOwners, Stays, TimedOut;
    var survivors, reports := Survivors(p[1..], connected, now), Reports(p[1..], connected, now);
    var stays := if Stays(p[0], connected, now) then [p[0]] else [];
    var reported := if TimedOut(p[0], connected, now) then [p[0]] else [];
    assert Survivors(p, connected, now) == stays + survivors && Reports(p, connected, now) == reports + reported;
    assert p == [p[0]] + p[1..];
    hide *;
    RequestOwnersConcat(stays, survivors);
    RequestOwnersConcat(reports, reported);
    RequestOwnersConcat([p[0]], p[1..]);
    EitherOwner(p[0], connected, now);
  }

  /** Of a request that is swept away unreported nothing is owned. */
  lemma EitherOwner(r: Request, connected: bool, now: nat)
    ensures RequestOwners([r]) ==
            RequestOwners(if Stays(r, connected, now) then [r] else [])
                + RequestOwners(if TimedOut(r, connected, now) then [r] else [])
  {
    OwnersOfOne(r);
    assert RequestOwners([]) == multiset{};
  }

  lemma {:induction false} SurvivorsListed(p: seq<Request>, connected: bool, now: nat)
    ensures forall r :: r in Survivors(p, connected, now) ==> r in p
  {
    if p != [] {
      SurvivorsListed(p[1..], connected, now);
      assert forall r :: r in p[1..] ==> r in p;
    }
  }

  lemma {:induction false} SurvivorsIncrease(p: seq<Request>, connected: bool, now: nat)
    requires Increasing(p)
    ensures Increasing(Survivors(p, connected, now))
  {
    hide Increasing, Stays;
    if p == [] {
      assert Survivors(p, connected, now) == p;
    } else {
      var rest := Survivors(p[1..], connected, now);
      IncreasingTail(p);
      SurvivorsIncrease(p[1..], connected, now);
      SurvivorsListed(p[1..], connected, now);
      IncreasingCons(p[0], rest);
      assert [] + rest == rest;
    }
  }

  lemma IncreasingTail(p: seq<Request>)
    requires Increasing(p) && p != []
    ensures Increasing(p[1..]) && forall r :: r in p[1..] ==> p[0].info.serial < r.info.serial
  {
  }

  lemma IncreasingCons(r: Request, p: seq<Request>)
    requires Increasing(p) && forall q :: q in p ==> r.info.serial < q.info.serial
    ensures Increasing([r] + p)
  {
  }

  lemma SweptNumbered(s: State)
    requires Numbered(s)
    ensures Numbered(Swept(s))
  {
    hide Increasing, RequestOwners, Survivors, Reports;
    SurvivorsListed(s.pending, s.connected, s.now);
    SurvivorsIncrease(s.pending, s.connected, s.now);
  }

  lemma SweepKeeps(s: State)
    requires Inv(s)
    ensures Inv(Swept(s))
  {
    hide NoDuplicates, SlotOwners, RequestOwners, Numbered, Survivors, Reports;
    SweptNumbered(s);
    SweptOwners(s.pending, s.connected, s.now);
    var u := s.(pending := Survivors(s.pending, s.connected, s.now));
    var m := RequestOwners(Reports(s.pending, s.connected, s.now));
    assert Owners(s) == Owners(u) + m;
    FreeingKeeps(u, Owners(u), m);
  }

  // ---- Runs ----

  datatype Action =
    | Ask(kind: Kind, text: string, handler: nat, qos: nat, data: nat, timeout: nat, ok: bool)
    | TakeId
    | SubAck(id: nat, nack: bool)
    | UnsubAck(id: nat, stale: Option<nat>)
    | Clear(text: string)
    | SweepList
    | Tick(later: nat)
    | SetConnected(connected: bool)

  /** `TakeId` is the allocation of a packet id for a PUBLISH, which uses the same counter. */
  function Step(s: State, a: Action): State {
    match a
    case Ask(kind, text, handler, qos, data, timeout, ok) => Requested(s, kind, text, handler, qos, data, timeout, ok)
    case TakeId => s.(issued := s.issued + 1)
    case SubAck(id, nack) => SubAcked(s, id, nack)
    case UnsubAck(id, stale) => UnsubAcked(s, id, stale)
    case Clear(text) => SlotsCleared(s, text)
    case SweepList => Swept(s)
    case Tick(later) => s.(now := s.now + later)
    case SetConnected(connected) => s.(connected := connected)
  }

  /** What an answer has to meet: it is the first one to its request, and a filter that is granted for
      the first time finds a free slot. */
  predicate Fair(s: State, a: Action) {
    match a
    case SubAck(id, nack) =>
      Mentions(s.pending, id) ==> (Waits(s.pending, id) <==> Placed(s.slots, FirstHandle(s.pending, id), nack))
    case UnsubAck(id, stale) => if Mentions(s.pending, id) then Waits(s.pending, id) else stale.None?
    case _ => true
  }

  /** Every operation keeps the invariant if and only if the answer is fair. */
  lemma StepKeepsExactly(s: State, a: Action)
    requires Inv(s) && (a.SubAck? || a.UnsubAck? ==> Recent(s))
    ensures Inv(Step(s, a)) <==> Fair(s, a)
  {
    hide NoDuplicates, SlotOwners, RequestOwners, Mentions, Waits, Placed, FirstHandle, SubAcked, UnsubAcked,
      SlotsCleared, Swept, Requested;
    match a
    case Ask(kind, text, handler, qos, data, timeout, ok) =>
      RequestKeeps(s, kind, text, handler, qos, data, timeout, ok);
    case SubAck(id, nack) =>
      if Mentions(s.pending, id) {
        SubAckKeepsExactly(s, id, nack);
      } else {
        Unanswered(s, id, nack);
      }
    case UnsubAck(id, stale) => UnsubAckKeepsExactly(s, id, stale);
    case Clear(text) => ClearKeeps(s, text);
    case SweepList => SweepKeeps(s);
    case TakeId =>
    case Tick(_) =>
    case SetConnected(_) =>
  }

  lemma Unanswered(s: State, id: nat, nack: bool)
    requires !Mentions(s.pending, id)
    ensures SubAcked(s, id, nack) == s
  {
  }

  function Run(s: State, actions: seq<Action>): State {
    if actions == [] then s else Step(Run(s, actions[..|actions| - 1]), actions[|actions| - 1])
  }

  /** In every step that is an answer, it is fair and no request is too old. */
  predicate FairRun(s: State, actions: seq<Action>) {
    forall i :: 0 <= i < |actions| ==>
      var t := Run(s, actions[..i]); Fair(t, actions[i]) && (actions[i].SubAck? || actions[i].UnsubAck? ==> Recent(t))
  }

  const EMPTY := State(seq(MAX_SUB_TOPICS, _ => None), [], {}, false, 0, 1, 0, false, 0)

  /** In every state of every fair run from an empty table: no two slots hold the same filter with the
      same callback, every filter string has exactly one owner, and nothing has been freed twice. */
  lemma {:induction false} InvOverRuns(actions: seq<Action>, n: nat)
    requires FairRun(EMPTY, actions) && n <= |actions|
    ensures Inv(Run(EMPTY, actions[..n]))
  {
    if n == 0 {
      EmptySlots(EMPTY.slots);
    } else {
      hide Inv, Fair, Recent, Step;
      InvOverRuns(actions, n - 1);
      assert actions[..n][..n - 1] == actions[..n - 1];
      StepKeepsExactly(Run(EMPTY, actions[..n - 1]), actions[n - 1]);
    }
  }

  lemma EmptySlots(slots: seq<Option<Handle>>)
    requires forall o :: o in slots ==> o.None?
    ensures SlotOwners(slots) == multiset{}
  {
    if slots != [] {
      assert slots[0] in slots;
      EmptySlots(slots[1..]);
    }
  }

  // ---- When a request leaves the list ----

  /** Some sweep of the run comes on a live connection at or after the deadline. */
  predicate SweptLate(s: State, actions: seq<Action>, deadline: nat) {
    exists i :: 0 <= i < |actions| && actions[i].SweepList?
                && Run(s, actions[..i]).connected && Run(s, actions[..i]).now >= deadline
  }

  /** The action is an answer to requests with the id. */
  predicate Answers(a: Action, id: nat) { (a.SubAck? || a.UnsubAck?) && a.id == id }

  lemma StepWaits(s: State, r: Request, a: Action)
    requires r.info.serial <= s.issued && Live(r) && !Answers(a, r.msgId)
    ensures var t := Step(s, a);
            && t.issued >= s.issued
            && (r in t.pending <==> r in s.pending && !(a.SweepList? && s.connected && s.now >= r.deadline))
  {
    match a
    case SubAck(id, nack) =>
      OthersKept(s.pending, id, r);
    case UnsubAck(id, stale) =>
      OthersKept(s.pending, id, r);
    case SweepList =>
      SweepDecides(s.pending, s.connected, s.now, r);
    case _ =>
  }

  lemma OthersKept(p: seq<Request>, id: nat, r: Request)
    requires r.msgId != id
    ensures r in Acked(p, id) <==> r in p
  {
    var q := Acked(p, id);
    if i :| 0 <= i < |p| && p[i] == r {
      assert q[i] == r;
    }
    if i :| 0 <= i < |q| && q[i] == r {
      assert Mark(p[i], id) == r;
    }
  }

  lemma LateSoFar(s: State, actions: seq<Action>, deadline: nat)
    requires actions != []
    ensures var n := |actions| - 1;
            var t := Run(s, actions[..n]);
            SweptLate(s, actions, deadline)
            <==> SweptLate(s, actions[..n], deadline) || (actions[n].SweepList? && t.connected && t.now >= deadline)
  {
    hide Run;
    var n := |actions| - 1;
    var init := actions[..n];
    assert forall i :: 0 <= i < n ==> init[..i] == actions[..i] && init[i] == actions[i];
  }

  /** A request that is not answered is pending until a sweep comes on a live connection at or after its
      deadline, and no longer. */
  lemma {:induction false} WaitsExactly(s: State, r: Request, actions: seq<Action>)
    requires r in s.pending && Live(r) && r.info.serial <= s.issued
    requires forall a :: a in actions ==> !Answers(a, r.msgId)
    ensures var t := Run(s, actions);
            t.issued >= s.issued && (r in t.pending <==> !SweptLate(s, actions, r.deadline))
  {
    hide Step, Answers;
    if actions != [] {
      var n := |actions| - 1;
      var init := actions[..n];
      assert actions[n] in actions && forall a :: a in init ==> a in actions;
      WaitsExactly(s, r, init);
      StepWaits(Run(s, init), r, actions[n]);
      LateSoFar(s, actions, r.deadline);
      hide SweptLate;
    } else {
      assert !SweptLate(s, actions, r.deadline);
    }
  }

  /** What is listed for a request that has been sent: all that was asked for, and the deadline. */
  lemma AskedIsListed(s: State, kind: Kind, text: string, handler: nat, qos: nat, data: nat, timeout: nat)
    returns (r: Request)
    requires Queued(s, true)
    ensures var t := Step(s, Ask(kind, text, handler, qos, data, timeout, true));
            && t.pending == s.pending + [r] && t.slots == s.slots && t.issued == s.issued + 1 && t.first == s.first
            && t.connected == s.connected && t.now == s.now
    ensures r.info.kind == kind && r.info.handle.filter.text == text && r.info.handle.handler == handler
    ensures r.info.handle.qos == qos && r.info.handle.data == data
    ensures Live(r) && r.deadline == s.now + timeout && r.info.serial == s.issued + 1
    ensures r.msgId == IdAfter(s.first, s.issued + 1)
  {
    var t := Step(s, Ask(kind, text, handler, qos, data, timeout, true));
    r := t.pending[|s.pending|];
  }

  /** So a request that is sent waits for its answer just as long as its timeout, and until the next
      sweep after that. */
  lemma RequestTimesOutExactly(s: State, kind: Kind, text: string, handler: nat, qos: nat, data: nat, timeout: nat,
                               actions: seq<Action>)
    requires Inv(s) && Queued(s, true)
    requires forall a :: a in actions ==> !Answers(a, IdAfter(s.first, s.issued + 1))
    ensures var u := Step(s, Ask(kind, text, handler, qos, data, timeout, true));
            (exists r :: r in Run(u, actions).pending && r.info.serial == s.issued + 1)
            <==> !SweptLate(u, actions, s.now + timeout)
  {
    var u := Step(s, Ask(kind, text, handler, qos, data, timeout, true));
    var r := AskedIsListed(s, kind, text, handler, qos, data, timeout);
    RequestKeeps(s, kind, text, handler, qos, data, timeout, true);
    assert r in u.pending;
    WaitsExactly(u, r, actions);
    hide Step, Inv, Answers;
    SerialTells(u, r, actions);
  }

  /** No other entry ever has its serial number and waits. */
  lemma {:induction false} SerialTells(s: State, r: Request, actions: seq<Action>)
    requires Numbered(s) && r in s.pending && Live(r)
    requires forall a :: a in actions ==> !Answers(a, r.msgId)
    ensures forall x :: x in Run(s, actions).pending && x.info.serial == r.info.serial ==> x == r
    ensures Run(s, actions).issued >= s.issued
  {
    hide Step, Answers;
    if actions == [] {
      OneSerial(s, r);
    } else {
      var n := |actions| - 1;
      var init := actions[..n];
      assert actions[n] in actions && forall a :: a in init ==> a in actions;
      SerialTells(s, r, init);
      SerialStep(Run(s, init), r, actions[n]);
    }
  }

  lemma OneSerial(s: State, r: Request)
    requires Numbered(s) && r in s.pending
    ensures forall x :: x in s.pending && x.info.serial == r.info.serial ==> x == r
  {
    forall x | x in s.pending && x.info.serial == r.info.serial
      ensures x == r
    {
      var i :| 0 <= i < |s.pending| && s.pending[i] == x;
      var j :| 0 <= j < |s.pending| && s.pending[j] == r;
    }
  }

  lemma SerialStep(s: State, r: Request, a: Action)
    requires r.info.serial <= s.issued && !Answers(a, r.msgId)
    requires forall x :: x in s.pending && x.info.serial == r.info.serial ==> x == r
    ensures forall x :: x in Step(s, a).pending && x.info.serial == r.info.serial ==> x == r
    ensures Step(s, a).issued >= s.issued
  {
    var t := Step(s, a);
    forall x | x in t.pending && x.info.serial == r.info.serial
      ensures x == r
    {
      match a
      case SubAck(id, nack) =>
        MarkedFrom(s.pending, id, t.pending, x, r);
      case UnsubAck(id, stale) =>
        MarkedFrom(s.pending, id, t.pending, x, r);
      case SweepList =>
        SweepDecides(s.pending, s.connected, s.now, x);
      case _ =>
    }
  }

  lemma MarkedFrom(p: seq<Request>, id: nat, q: seq<Request>, x: Request, r: Request)
    requires q == Acked(p, id) || q == p
    requires x in q && x.info.serial == r.info.serial && r.msgId != id
    requires forall y :: y in p && y.info.serial == r.info.serial ==> y == r
    ensures x == r
  {
    if q != p {
      var i :| 0 <= i < |q| && q[i] == x;
      assert x == Mark(p[i], id) && p[i] in p;
    }
  }

  /** A subscription that is asked for and granted: with a refusal the table stays; otherwise, if no slot
      has its filter and callback, what was asked for stands in the first free slot, if there is one. */
  lemma AnswerDecides(s: State, text: string, handler: nat, qos: nat, data: nat, timeout: nat, nack: bool)
    requires Inv(s) && Queued(s, true)
    requires Recent(Step(s, Ask(Subscribe, text, handler, qos, data, timeout, true)))
    ensures var u := Step(s, Ask(Subscribe, text, handler, qos, data, timeout, true));
            var t := Step(u, SubAck(IdAfter(s.first, s.issued + 1), nack));
            var there := exists i :: 0 <= i < |s.slots| && s.slots[i].Some? && s.slots[i].value.filter.text == text
                                     && s.slots[i].value.handler == handler;
            if nack || there || None !in s.slots then t.slots == s.slots
            else
              exists i :: 0 <= i < |s.slots| && s.slots[i].None? && None !in s.slots[..i]
                          && t.slots[i].Some? && t.slots == s.slots[i := t.slots[i]]
                          && t.slots[i].value.filter.text == text && t.slots[i].value.handler == handler
                          && t.slots[i].value.qos == qos && t.slots[i].value.data == data
  {
    var u := Step(s, Ask(Subscribe, text, handler, qos, data, timeout, true));
    var r := AskedIsListed(s, Subscribe, text, handler, qos, data, timeout);
    RequestKeeps(s, Subscribe, text, handler, qos, data, timeout, true);
    assert u.pending[|s.pending|] == r;
    Found(u, |s.pending|);
    var h := r.info.handle;
    hide Inv, Numbered, Recent;
    if !nack && !Present(s.slots, h) && HasFreeSlot(s.slots) {
      var i := FirstFree(s.slots);
      assert Granted(s.slots, h)[i] == Some(h);
    }
  }

  /** The request at a place is the one that is found under its id. */
  lemma Found(s: State, k: nat)
    requires Numbered(s) && Recent(s) && k < |s.pending|
    ensures FirstInfo(s.pending, s.pending[k].msgId) == Some(s.pending[k].info)
  {
    var id := s.pending[k].msgId;
    Mentioned(s.pending, k);
    var j := TheRequest(s, id);
    IdsDistinct(s, j, k);
  }

  lemma {:induction false} Mentioned(p: seq<Request>, k: nat)
    requires k < |p|
    ensures Mentions(p, p[k].msgId)
  {
    if k > 0 {
      Mentioned(p[1..], k - 1);
    }
  }

  // ---- A second answer ----

  lemma {:induction false} AckedFirst(p: seq<Request>, id: nat)
    ensures FirstInfo(Acked(p, id), id) == FirstInfo(p, id)
  {
    if p != [] {
      assert Acked(p, id)[1..] == Acked(p[1..], id);
      AckedFirst(p[1..], id);
    }
  }

  lemma NobodyWaits(p: seq<Request>, id: nat)
    ensures !Waits(Acked(p, id), id)
  {
    var q := Acked(p, id);
    forall r | r in q && r.msgId == id
      ensures !Live(r)
    {
      var i :| 0 <= i < |q| && q[i] == r;
      assert r == Mark(p[i], id);
    }
  }

  lemma GrantedIsPresent(slots: seq<Option<Handle>>, h: Handle)
    requires Present(slots, h) || HasFreeSlot(slots)
    ensures Present(Granted(slots, h), h)
  {
    if !Present(slots, h) {
      assert Granted(slots, h)[FirstFree(slots)] == Some(h);
    }
  }

  /** A second answer, before the request has been swept away, is harmless if and only if it grants a
      filter for which there is no place: after a grant it never is, whether it grants or refuses. */
  lemma SecondAnswerExactly(s: State, id: nat, nack: bool, again: bool)
    requires Inv(s) && Recent(s) && Mentions(s.pending, id)
    requires Waits(s.pending, id) && Placed(s.slots, FirstHandle(s.pending, id), nack)
    ensures var t := SubAcked(s, id, nack);
            && (Inv(SubAcked(t, id, again)) <==> !Placed(t.slots, FirstHandle(s.pending, id), again))
            && (!nack ==> !Inv(SubAcked(t, id, again)))
  {
    hide Inv, Waits, Present, HasFreeSlot, Granted;
    var t, h := SubAcked(s, id, nack), FirstHandle(s.pending, id);
    SubAckKeepsExactly(s, id, nack);
    AckedFirst(s.pending, id);
    NobodyWaits(s.pending, id);
    forall r | r in t.pending
      ensures t.issued - r.info.serial < MAX_PACKET_ID
    {
      var i :| 0 <= i < |t.pending| && t.pending[i] == r;
      assert s.pending[i] in s.pending && r == Mark(s.pending[i], id);
    }
    SubAckKeepsExactly(t, id, again);
    if !nack {
      GrantedIsPresent(s.slots, h);
    }
  }

  // ---- Reconnecting ----

  /** uiot_mqtt_resubscribe from slot `i` on: every occupied slot is requested again, until one
      request fails. */
  function Resubscribed(s: State, i: nat, timeout: nat, oks: seq<bool>): State
    requires i <= |s.slots| == |oks|
    decreases |s.slots| - i
  {
    if i == |s.slots| then s
    else if s.slots[i].None? then Resubscribed(s, i + 1, timeout, oks)
    else
      var h := s.slots[i].value;
      var t := Requested(s, Subscribe, h.filter.text, h.handler, h.qos, h.data, timeout, oks[i]);
      if Queued(s, oks[i]) then Resubscribed(t, i + 1, timeout, oks) else t
  }

  /** The requests allocated after `lo` and up to `hi` repeat subscriptions of the table. */
  ghost predicate Repeating(s: State, slots: seq<Option<Handle>>, lo: nat, hi: nat) {
    s.slots == slots && hi <= s.issued &&
      forall r :: r in s.pending && lo < r.info.serial <= hi ==> Present(slots, r.info.handle)
  }

  lemma {:induction false} ResubscribedRepeats(s: State, i: nat, timeout: nat, oks: seq<bool>, lo: nat)
    requires i <= |s.slots| == |oks| && Repeating(s, s.slots, lo, s.issued)
    requires forall r :: r in s.pending ==> r.info.serial <= s.issued
    ensures var t := Resubscribed(s, i, timeout, oks); t.issued >= s.issued && Repeating(t, s.slots, lo, t.issued)
    decreases |s.slots| - i
  {
    if i < |s.slots| {
      if s.slots[i].None? {
        ResubscribedRepeats(s, i + 1, timeout, oks, lo);
      } else {
        var h := s.slots[i].value;
        var t := Requested(s, Subscribe, h.filter.text, h.handler, h.qos, h.data, timeout, oks[i]);
        if Queued(s, oks[i]) {
          var r := t.pending[|s.pending|];
          assert Identical(s.slots[i].value, r.info.handle);
          assert Present(s.slots, r.info.handle);
          forall q | q in t.pending && lo < q.info.serial <= t.issued
            ensures Present(s.slots, q.info.handle)
          {
            assert q in s.pending || q == r;
          }
          ResubscribedRepeats(t, i + 1, timeout, oks, lo);
        }
      }
    }
  }

  lemma {:induction false} ResubscribedKeeps(s: State, i: nat, timeout: nat, oks: seq<bool>)
    requires i <= |s.slots| == |oks| && Inv(s)
    ensures Inv(Resubscribed(s, i, timeout, oks))
    decreases |s.slots| - i
  {
    hide Inv, Requested;
    if i < |s.slots| {
      if s.slots[i].None? {
        ResubscribedKeeps(s, i + 1, timeout, oks);
      } else {
        var h := s.slots[i].value;
        var t := Requested(s, Subscribe, h.filter.text, h.handler, h.qos, h.data, timeout, oks[i]);
        RequestKeeps(s, Subscribe, h.filter.text, h.handler, h.qos, h.data, timeout, oks[i]);
        SlotsStay(s, Subscribe, h.filter.text, h.handler, h.qos, h.data, timeout, oks[i]);
        if Queued(s, oks[i]) {
          ResubscribedKeeps(t, i + 1, timeout, oks);
        }
      }
    }
  }

  lemma SlotsStay(s: State, kind: Kind, text: string, handler: nat, qos: nat, data: nat, timeout: nat, ok: bool)
    ensures Requested(s, kind, text, handler, qos, data, timeout, ok).slots == s.slots
  {
  }

  /** How many slots are occupied from the `i`-th on. */
  function Occupied(slots: seq<Option<Handle>>, i: nat): nat
    requires i <= |slots|
    decreases |slots| - i
  {
    if i == |slots| then 0 else (if slots[i].Some? then 1 else 0) + Occupied(slots, i + 1)
  }

  /** The requests ask for the subscription of the slot again. */
  ghost predicate AsksAgain(p: seq<Request>, o: Option<Handle>) {
    o.None? || exists r :: r in p && Live(r) && r.info.kind == Subscribe && r.info.handle.qos == o.value.qos
                           && r.info.handle.filter.text == o.value.filter.text
                           && r.info.handle.handler == o.value.handler && r.info.handle.data == o.value.data
  }

  /** With room in the list and every request sent, each occupied slot is asked for again, with all that
      belongs to it, and nothing else is. */
  lemma {:induction false} AllAskedAgain(s: State, i: nat, timeout: nat, oks: seq<bool>)
    requires i <= |s.slots| == |oks| && s.connected && (forall k :: 0 <= k < |oks| ==> oks[k])
    requires |s.pending| + Occupied(s.slots, i) <= MAX_SUB_TOPICS
    ensures var t := Resubscribed(s, i, timeout, oks);
            && t.slots == s.slots && s.pending <= t.pending && |t.pending| == |s.pending| + Occupied(s.slots, i)
            && forall k :: i <= k < |s.slots| ==> AsksAgain(t.pending[|s.pending|..], s.slots[k])
    decreases |s.slots| - i
  {
    hide AsksAgain;
    if i < |s.slots| {
      if s.slots[i].None? {
        AllAskedAgain(s, i + 1, timeout, oks);
        NothingToAsk(Resubscribed(s, i, timeout, oks).pending[|s.pending|..]);
      } else {
        var h := s.slots[i].value;
        var u := Requested(s, Subscribe, h.filter.text, h.handler, h.qos, h.data, timeout, true);
        AllAskedAgain(u, i + 1, timeout, oks);
        var t := Resubscribed(s, i, timeout, oks);
        var r := u.pending[|s.pending|];
        assert t.pending[|s.pending|..] == [r] + t.pending[|u.pending|..];
        forall k | i <= k < |s.slots|
          ensures AsksAgain(t.pending[|s.pending|..], s.slots[k])
        {
          if k == i {
            AskedFor(t.pending[|s.pending|..], r, h);
          } else {
            StillAsked(r, t.pending[|u.pending|..], s.slots[k]);
          }
        }
      }
    }
  }

  lemma NothingToAsk(p: seq<Request>)
    ensures AsksAgain(p, None)
  {
  }

  lemma AskedFor(p: seq<Request>, r: Request, h: Handle)
    requires r in p && Live(r) && r.info.kind == Subscribe && r.info.handle.qos == h.qos
    requires r.info.handle.filter.text == h.filter.text
    requires r.info.handle.handler == h.handler && r.info.handle.data == h.data
    ensures AsksAgain(p, Some(h))
  {
  }

  lemma StillAsked(r: Request, p: seq<Request>, o: Option<Handle>)
    requires AsksAgain(p, o)
    ensures AsksAgain([r] + p, o)
  {
    if o.Some? {
      var x :| x in p && Live(x) && x.info.kind == Subscribe && x.info.handle.qos == o.value.qos
               && x.info.handle.filter.text == o.value.filter.text
               && x.info.handle.handler == o.value.handler && x.info.handle.data == o.value.data;
      assert x in [r] + p;
    }
  }

  /** Anything may happen but a clearing of slots and an answer to another subscription. */
  predicate Quiet(s: State, a: Action, lo: nat, hi: nat) {
    !a.Clear? && (a.SubAck? && Mentions(s.pending, a.id) ==> lo < FirstInfo(s.pending, a.id).value.serial <= hi)
  }

  predicate QuietRun(s: State, actions: seq<Action>, lo: nat, hi: nat) {
    forall i :: 0 <= i < |actions| ==> Quiet(Run(s, actions[..i]), actions[i], lo, hi)
  }

  lemma StepRepeats(s: State, a: Action, slots: seq<Option<Handle>>, lo: nat, hi: nat)
    requires Repeating(s, slots, lo, hi) && Quiet(s, a, lo, hi)
    ensures Repeating(Step(s, a), slots, lo, hi)
  {
    hide Present;
    var t := Step(s, a);
    match a {
      case SubAck(id, nack) =>
        if Mentions(s.pending, id) {
          var k := FirstAt(s.pending, id);
          assert s.pending[k] in s.pending;
          MarkedRepeats(s, t, id, slots, lo, hi);
        }
      case UnsubAck(id, stale) =>
        if Mentions(s.pending, id) {
          MarkedRepeats(s, t, id, slots, lo, hi);
        }
      case SweepList => SurvivorsListed(s.pending, s.connected, s.now);
      case _ =>
    }
  }

  lemma MarkedRepeats(s: State, t: State, id: nat, slots: seq<Option<Handle>>, lo: nat, hi: nat)
    requires Repeating(s, slots, lo, hi) && t.pending == Acked(s.pending, id) && t.slots == slots &&
             t.issued == s.issued
    ensures Repeating(t, slots, lo, hi)
  {
    hide Present;
    forall r | r in t.pending && lo < r.info.serial <= hi
      ensures Present(slots, r.info.handle)
    {
      var i :| 0 <= i < |t.pending| && t.pending[i] == r;
      assert s.pending[i] in s.pending && r == Mark(s.pending[i], id);
    }
  }

  lemma {:induction false} RunRepeats(s: State, actions: seq<Action>, slots: seq<Option<Handle>>, lo: nat, hi: nat)
    requires Repeating(s, slots, lo, hi) && QuietRun(s, actions, lo, hi)
    ensures Repeating(Run(s, actions), slots, lo, hi)
  {
    hide Repeating, Quiet, Step;
    if actions != [] {
      var n := |actions| - 1;
      forall i | 0 <= i < n
        ensures Quiet(Run(s, actions[..n][..i]), actions[..n][i], lo, hi)
      {
        assert actions[..n][..i] == actions[..i];
      }
      RunRepeats(s, actions[..n], slots, lo, hi);
      StepRepeats(Run(s, actions[..n]), actions[n], slots, lo, hi);
    }
  }

  /** A reconnect: the table is subscribed again, and then come answers to these requests, granting or
      refusing, in any order and number, with sweeps, other requests, answers to unsubscribing, time
      and connection changes in between. The table is what it was before. */
  lemma ReconnectKeepsTable(s: State, timeout: nat, oks: seq<bool>, actions: seq<Action>)
    requires Numbered(s) && |oks| == |s.slots|
    requires var t := Resubscribed(s, 0, timeout, oks); QuietRun(t, actions, s.issued, t.issued)
    ensures Run(Resubscribed(s, 0, timeout, oks), actions).slots == s.slots
  {
    hide Present, QuietRun, Resubscribed, Run, IdAfter, Increasing;
    ResubscribedRepeats(s, 0, timeout, oks, s.issued);
    var t := Resubscribed(s, 0, timeout, oks);
    RunRepeats(t, actions, s.slots, s.issued, t.issued);
  }

  // ---- Unsubscribing ----

  /** What unsubscribing should clear: the slots with that very filter (section 3.10.4 of MQTT 3.1.1). */
  function Unsubscribed(slots: seq<Option<Handle>>, text: string): (r: seq<Option<Handle>>)
    ensures |r| == |slots|
    ensures forall i :: 0 <= i < |r| ==>
              r[i] == if slots[i].Some? && slots[i].value.filter.text == text then None else slots[i]
  {
    if slots == [] then []
    else
      [if slots[0].Some? && slots[0].value.filter.text == text then None else slots[0]]
      + Unsubscribed(slots[1..], text)
  }

  /** There is a subscription to another filter. */
  predicate HasOther(slots: seq<Option<Handle>>, text: string) {
    exists o :: o in slots && o.Some? && o.value.filter.text != text
  }

  /** Some level after the first is a wildcard. */
  predicate WildcardBehind(text: string) {
    exists k :: 1 <= k < |Levels(text)| && (Levels(text)[k] == "+" || Levels(text)[k] == "#")
  }

  /** Clearing takes other subscriptions along if and only if the filter has a wildcard behind a
      separator, which for a valid filter means a level after the first that is one, and there is
      another subscription; and then it takes all of them. */
  lemma ClearsOthersExactly(slots: seq<Option<Handle>>, text: string)
    ensures Cleared(slots, text) != Unsubscribed(slots, text) <==> HasInnerWildcard(text) && HasOther(slots, text)
    ensures ValidFilter(text) ==>
              (Cleared(slots, text) != Unsubscribed(slots, text) <==> WildcardBehind(text) && HasOther(slots, text))
    ensures Cleared(slots, text) != Unsubscribed(slots, text) ==> forall o :: o in Cleared(slots, text) ==> o.None?
  {
    if ValidFilter(text) {
      InnerWildcardExactly(text);
    }
    hide HasInnerWildcard, WildcardBehind, ValidFilter;
    var c, u := Cleared(slots, text), Unsubscribed(slots, text);
    if o :| o in slots && o.Some? && o.value.filter.text != text {
      var i :| 0 <= i < |slots| && slots[i] == o;
      assert u[i] == o;
      assert HasInnerWildcard(text) ==> c[i] == None;
      if !HasInnerWildcard(text) {
        assert c == u;
      }
    } else {
      forall i | 0 <= i < |slots|
        ensures c[i] == u[i]
      {
        assert slots[i] in slots;
      }
    }
  }

  /** So unsubscribing from `b/+` ends the subscription to `a`. */
  lemma UnrelatedIsCleared(h: Handle)
    requires h.filter.text == "a"
    ensures Unsubscribed([Some(h)], "b/+") == [Some(h)] && Cleared([Some(h)], "b/+") == [None]
  {
    assert "b/+"[1] == '/' && "b/+"[2] == '+';
  }

  /** The text search of the source finds the wildcards that are levels. */
  lemma InnerWildcardExactly(text: string)
    requires ValidFilter(text)
    ensures HasInnerWildcard(text) <==> WildcardBehind(text)
  {
    PairStartsLevel(text, '#');
    PairStartsLevel(text, '+');
    var l := Levels(text);
    forall k | 1 <= k < |l|
      ensures (l[k] != "" && (l[k][0] == '#' || l[k][0] == '+')) <==> l[k] == "+" || l[k] == "#"
    {
      assert IsLiteral(l[k]) ==> l[k] != "" ==> l[k][0] in l[k];
    }
  }

  /** A character follows a separator exactly when a level after the first begins with it. */
  lemma {:induction false} PairStartsLevel(s: string, c: char)
    requires c != '/'
    ensures ContainsPair(s, c) <==> exists k :: 1 <= k < |Levels(s)| && Levels(s)[k] != "" && Levels(s)[k][0] == c
  {
    var l := Levels(s);
    if s != "" {
      var r := Levels(s[1..]);
      PairStartsLevel(s[1..], c);
      PairHead(s, c);
      assert r[0] != "" && r[0][0] == c <==> |s| > 1 && s[1] == c;
      if s[0] == '/' {
        assert forall k :: 1 <= k < |l| ==> l[k] == r[k - 1];
        assert forall k :: 0 <= k < |r| ==> r[k] == l[k + 1];
      } else {
        assert forall k :: 1 <= k < |l| ==> l[k] == r[k];
      }
    }
  }

  lemma PairHead(s: string, c: char)
    requires s != ""
    ensures ContainsPair(s, c) <==> (|s| > 1 && s[0] == '/' && s[1] == c) || ContainsPair(s[1..], c)
  {
    assert forall i :: 0 <= i < |s| - 1 ==> s[1..][i] == s[i + 1];
    if i :| 0 <= i < |s| - 1 && s[i] == '/' && s[i + 1] == c {
      if i > 0 {
        assert s[1..][i - 1] == '/' && s[1..][i] == c;
      }
    }
  }
}
