/** The same bookkeeping on the heap list: every operation of the client is one step of a run. */
module AckClient {
  import opened LinkedList
  import opened PendingAcks
  import opened PacketIds
  import opened AckRuns

  const SUCCESS_RET := 0
  const FAILURE_RET := -1
  const ERR_MQTT_NO_CONN := -103
  const ERR_MQTT_BUFFER_TOO_SHORT := -119
  const MAX_REPUB_NUM := 20
  const MAX_SUB_TOPICS := 10

  class Client {
    const list: List<Entry<nat>>
    const config: Config
    var nextPacketId: PacketId
    var isConnected: bool
    var now: nat
    /** Ids of the requests reported as timed out, in the order of the reports. */
    var timeouts: seq<nat>
    var issued: nat
    ghost var accepted: set<nat>
    ghost var fates: seq<Fate>
    ghost var acked: set<nat>

    ghost predicate Valid()
      reads this, list, list.nodes
    {
      list.Valid()
    }

    ghost function View(): State
      reads this, list, list.nodes
    {
      State(Contents(list), nextPacketId, issued, accepted, isConnected, now, fates, acked)
    }

    constructor (config: Config)
      ensures Valid() && View() == Start(1) && this.config == config && timeouts == []
      ensures fresh(list) && list.nodes == []
    {
      list := new List();
      this.config := config;
      nextPacketId, isConnected, now, timeouts, issued := 1, false, 0, [], 0;
      accepted, fates, acked := {}, [], {};
    }

    /** Takes an id, serialises (`fits`), queues, sends with the result `rc`; a request that could not
        be sent is taken off the queue again. */
    method Request(fits: bool, rc: int) returns (ret: int)
      requires Valid() && rc <= SUCCESS_RET
      modifies this, list, list.nodes
      ensures Valid() && View() == Step(config, old(View()), AckRuns.Request(fits, rc == SUCCESS_RET))
      ensures ret == if !isConnected then ERR_MQTT_NO_CONN
                     else if !fits then ERR_MQTT_BUFFER_TOO_SHORT
                     else if |old(Contents(list))| >= config.limit then FAILURE_RET
                     else if rc != SUCCESS_RET then rc
                     else nextPacketId
      ensures timeouts == old(timeouts)
    {
      hide Vals, Linked, Distinct, At;
      if !isConnected {
        return ERR_MQTT_NO_CONN;
      }
      nextPacketId := if nextPacketId == MAX_PACKET_ID then 1 else nextPacketId + 1;
      issued := issued + 1;
      if !fits {
        return ERR_MQTT_BUFFER_TOO_SHORT;
      }
      ghost var full := |Contents(list)| >= config.limit;
      ret := Queue(Entry(nextPacketId, now + config.timeout, Normal, issued), rc);
      accepted := if full then accepted else accepted + {issued};
      if ret != SUCCESS_RET {
        fates := if full then fates else fates + [SendFailed(issued)];
        return;
      }
      ret := nextPacketId;
    }

    /** Queues and sends; what could not be sent is taken off the list again. */
    method Queue(entry: Entry<nat>, rc: int) returns (ret: int)
      requires list.Valid() && rc <= SUCCESS_RET
      modifies list, list.nodes
      ensures list.Valid()
      ensures ret == if |old(Contents(list))| >= config.limit then FAILURE_RET else rc
      ensures Contents(list) == old(Contents(list)) + if ret == SUCCESS_RET then [entry] else []
    {
      hide Vals, Linked, Distinct, At;
      if list.len >= config.limit {
        return FAILURE_RET;
      }
      ghost var before := Contents(list);
      var node := Enqueue(list, entry);
      if rc != SUCCESS_RET {
        Withdraw(list, node);
        assert Contents(list) == before;
      }
      ret := rc;
    }

    /** An acknowledgement for `id` has arrived. */
    method HandleAck(id: nat)
      requires Valid()
      modifies this, list.nodes
      ensures Valid() && View() == Step(config, old(View()), Ack(id)) && timeouts == old(timeouts)
    {
      acked := acked + Hit(Contents(list), id);
      var _ := Mask(list, id);
    }

    /** One sweep; the timeout events are raised from the tail of the list to its head. */
    method Proc()
      requires Valid()
      modifies this, list, list.nodes
      ensures Valid() && View() == Step(config, old(View()), SweepList)
      ensures timeouts == old(timeouts) + Ids(Reports(old(Contents(list)), isConnected, now))
    {
      fates := fates + SweptFates(Contents(list), isConnected, now);
      var reported := Sweep(list, isConnected, now);
      timeouts := timeouts + Ids(reported);
    }
  }

  /** The publish list never holds more than 20 entries, the subscribe list never more than 10. */
  lemma ListsStayShort(timeout: nat, actions: seq<Action>)
    ensures |Run(Config(MAX_REPUB_NUM, timeout), Start(1), actions).pending| <= 20
    ensures |Run(Config(MAX_SUB_TOPICS, timeout), Start(1), actions).pending| <= 10
  {
    StartSatisfiesInv(Config(MAX_REPUB_NUM, timeout), 1);
    StartSatisfiesInv(Config(MAX_SUB_TOPICS, timeout), 1);
    InvOverRuns(Config(MAX_REPUB_NUM, timeout), Start(1), 1, actions);
    InvOverRuns(Config(MAX_SUB_TOPICS, timeout), Start(1), 1, actions);
  }

  function Ids(es: seq<Entry<nat>>): (ids: seq<nat>)
    ensures |ids| == |es|
  {
    seq(|es|, i requires 0 <= i < |es| => es[i].msgId)
  }

  function ExpiredSerials(f: seq<Fate>): seq<nat> {
    if f == [] then [] else (if f[0].Expired? then [f[0].serial] else []) + ExpiredSerials(f[1..])
  }

  function ReversedSerials(es: seq<Entry<nat>>): seq<nat> {
    if es == [] then [] else [es[|es| - 1].info] + ReversedSerials(es[..|es| - 1])
  }

  /** A sweep raises exactly one event for each entry it lets expire, last entry first, and none
      for an acknowledged one. */
  lemma {:induction false} OneEventPerExpiry(p: seq<Entry<nat>>, connected: bool, now: nat)
    ensures ReversedSerials(Reports(p, connected, now)) == ExpiredSerials(SweptFates(p, connected, now))
  {
    if p != [] {
      OneEventPerExpiry(p[1..], connected, now);
      var r, f := Reports(p[1..], connected, now), SweptFates(p[1..], connected, now);
      if TimedOut(p[0], connected, now) {
        assert (r + [p[0]])[..|r|] == r;
        assert ([Expired(p[0].info)] + f)[1..] == f;
      } else if !Stays(p[0], connected, now) {
        assert r + [] == r;
        assert ([Acknowledged(p[0].info)] + f)[1..] == f;
      } else {
        assert r + [] == r && [] + f == f;
      }
    }
  }
}
