/** The lists of requests that wait for an acknowledgement, and the sweep that clears them. */
module PendingAcks {
  import opened LinkedList
  import opened Optional

  datatype NodeState = Normal | Invalid

  /** A pending request: `info` is what the publish and the subscribe list add on their own. */
  datatype Entry<X> = Entry(msgId: nat, deadline: nat, state: NodeState, info: X)

  /** The request has waited long enough; time stands still while disconnected. */
  predicate TimedOut<X>(e: Entry<X>, connected: bool, now: nat) {
    e.state == Normal && connected && e.deadline <= now
  }

  predicate Stays<X>(e: Entry<X>, connected: bool, now: nat) {
    e.state == Normal && !TimedOut(e, connected, now)
  }

  /** What a sweep must leave: the live unexpired entries in their original order. */
  function Survivors<X>(s: seq<Entry<X>>, connected: bool, now: nat): (r: seq<Entry<X>>)
    ensures |r| <= |s|
  {
    if s == [] then []
    else (if Stays(s[0], connected, now) then [s[0]] else []) + Survivors(s[1..], connected, now)
  }

  /** What a sweep must report: the expired live entries, last one first. */
  function Reports<X>(s: seq<Entry<X>>, connected: bool, now: nat): (r: seq<Entry<X>>)
    ensures |r| <= |s|
  {
    if s == [] then []
    else Reports(s[1..], connected, now) + (if TimedOut(s[0], connected, now) then [s[0]] else [])
  }

  /** What a sweep does to an entry: it stays while it is not answered and, on a live connection, its
      deadline is still to come; it is reported if it is not answered and its deadline has come on a live
      connection; and it goes unreported if it has been answered. */
  lemma {:induction false} SweepDecides<X>(p: seq<Entry<X>>, connected: bool, now: nat, e: Entry<X>)
    ensures e in Survivors(p, connected, now) <==> e in p && e.state == Normal && (connected ==> now < e.deadline)
    ensures e in Reports(p, connected, now) <==> e in p && e.state == Normal && connected && e.deadline <= now
  {
    if p != [] {
      SweepDecides(p[1..], connected, now, e);
    }
  }

  function Mark<X>(e: Entry<X>, id: nat): Entry<X> {
    if e.msgId == id then e.(state := Invalid) else e
  }

  /** What an acknowledgement does: every entry with that id becomes invalid, nothing else moves. */
  function Acked<X>(s: seq<Entry<X>>, id: nat): (r: seq<Entry<X>>)
    ensures |r| == |s|
  {
    seq(|s|, i requires 0 <= i < |s| => Mark(s[i], id))
  }

  /** What the entry with that id nearest the head carries. */
  function FirstInfo<X>(s: seq<Entry<X>>, id: nat): Option<X> {
    if s == [] then None else if s[0].msgId == id then Some(s[0].info) else FirstInfo(s[1..], id)
  }

  /** The values in the list, head first. */
  ghost function Vals<V>(nodes: seq<Node<V>>): (vals: seq<V>)
    reads nodes
    ensures |vals| == |nodes|
  {
    if nodes == [] then [] else Vals(nodes[..|nodes| - 1]) + [nodes[|nodes| - 1].val]
  }

  lemma {:induction false} ValsAt<V>(nodes: seq<Node<V>>, i: nat)
    requires i < |nodes|
    ensures Vals(nodes)[i] == nodes[i].val
  {
    if i < |nodes| - 1 {
      ValsAt(nodes[..|nodes| - 1], i);
    }
  }

  twostate lemma ValsKept<V>(nodes: seq<Node<V>>)
    requires forall n :: n in nodes ==> n.val == old(n.val)
    ensures Vals(nodes) == old(Vals(nodes))
  {
    if nodes != [] {
      ValsKept(nodes[..|nodes| - 1]);
    }
  }

  ghost function Contents<X>(list: List<Entry<X>>): seq<Entry<X>>
    reads list, list.nodes
  {
    Vals(list.nodes)
  }

  /** The entries from `k` on are marked, the others untouched, and `found` is what the first of the
      former with the id carries. */
  ghost predicate MaskedFrom<X>(list: List<Entry<X>>, vals: seq<Entry<X>>, k: nat, id: nat, found: Option<X>)
    reads list, list.nodes
  {
    && list.Valid() && k <= |list.nodes| == |vals| && found == FirstInfo(vals[k..], id)
    && (forall i :: 0 <= i < k ==> list.nodes[i].val == vals[i])
    && (forall i :: k <= i < |vals| ==> list.nodes[i].val == Mark(vals[i], id))
  }

  /** Looks at the next untouched entry. */
  method MaskNode<X>(list: List<Entry<X>>, node: Node<Entry<X>>, id: nat, found: Option<X>, ghost vals: seq<Entry<X>>,
                     ghost k: nat)
    returns (found': Option<X>)
    requires MaskedFrom(list, vals, k, id, found) && 0 < k && node == list.nodes[k - 1]
    modifies node`val
    ensures list.nodes == old(list.nodes) && MaskedFrom(list, vals, k - 1, id, found')
  {
    found' := found;
    assert vals[k - 1..][1..] == vals[k..];
    if node.val.msgId == id {
      found' := Some(node.val.info);
      node.val := node.val.(state := Invalid);
      ValidKept(list);
    }
  }

  /** One turn of the loop. */
  method MaskNext<X>(list: List<Entry<X>>, iter: ListIterator<Entry<X>>, id: nat, found: Option<X>,
                     ghost vals: seq<Entry<X>>, ghost k: nat)
    returns (more: bool, found': Option<X>)
    requires MaskedFrom(list, vals, k, id, found) && iter.direction.FromTail? && iter.next == At(list.nodes, k - 1)
    modifies list.nodes, iter
    ensures list.nodes == old(list.nodes) && (more <==> k > 0)
    ensures more ==> MaskedFrom(list, vals, k - 1, id, found') && iter.next == At(list.nodes, k - 2)
    ensures !more ==> MaskedFrom(list, vals, 0, id, found') && iter.next == null
  {
    LinksBack(list, vals, k, id, found);
    hide MaskedFrom;
    found' := found;
    var node := iter.Next();
    more := node != null;
    if more {
      found' := MaskNode(list, node, id, found, vals, k);
    }
  }

  lemma LinksBack<X>(list: List<Entry<X>>, vals: seq<Entry<X>>, k: nat, id: nat, found: Option<X>)
    requires MaskedFrom(list, vals, k, id, found)
    ensures k <= |list.nodes| && (k > 0 ==> list.nodes[k - 1].prev == At(list.nodes, k - 2))
  {
    assert k > 0 ==> Linked(list.nodes, k - 1);
  }

  /** Marks every pending entry with the acknowledged id, walking from the tail; what the last one
      found carries is handed back, which the subscribe list looks at and the publish list does not. */
  method Mask<X>(list: List<Entry<X>>, id: nat) returns (found: Option<X>)
    requires list.Valid()
    modifies list.nodes
    ensures list.Valid() && list.nodes == old(list.nodes)
    ensures Contents(list) == Acked(old(Contents(list)), id) && found == FirstInfo(old(Contents(list)), id)
  {
    ghost var vals := Vals(list.nodes);
    found := None;
    Unmasked(list, id);
    if list.len > 0 {
      hide MaskedFrom, Vals;
      var iter := new ListIterator(list, FromTail);
      var more := true;
      ghost var k := |list.nodes|;
      while more
        invariant iter.direction.FromTail? && fresh(iter) && 0 <= k && iter.next == At(list.nodes, k - 1)
        invariant list.nodes == old(list.nodes) && MaskedFrom(list, vals, k, id, found) && (!more ==> k == 0)
        decreases more, k
      {
        more, found := MaskNext(list, iter, id, found, vals, k);
        k := if more then k - 1 else 0;
      }
    }
    AllMasked(list, vals, id, found);
  }

  lemma Unmasked<X>(list: List<Entry<X>>, id: nat)
    requires list.Valid()
    ensures MaskedFrom(list, Vals(list.nodes), |list.nodes|, id, None)
  {
    HoldsVals(list.nodes, Vals(list.nodes));
  }

  lemma AllMasked<X>(list: List<Entry<X>>, vals: seq<Entry<X>>, id: nat, found: Option<X>)
    requires MaskedFrom(list, vals, 0, id, found)
    ensures list.Valid() && Vals(list.nodes) == Acked(vals, id) && found == FirstInfo(vals, id)
  {
    assert vals[0..] == vals;
    HoldsVals(list.nodes, Acked(vals, id));
  }

  ghost predicate Holds<V>(nodes: seq<Node<V>>, vals: seq<V>)
    reads nodes
  {
    |nodes| == |vals| && forall i :: 0 <= i < |nodes| ==> nodes[i].val == vals[i]
  }

  lemma HoldsVals<V>(nodes: seq<Node<V>>, vals: seq<V>)
    ensures Holds(nodes, vals) <==> vals == Vals(nodes)
  {
    forall i | 0 <= i < |nodes| ensures Vals(nodes)[i] == nodes[i].val {
      ValsAt(nodes, i);
    }
  }

  /** Midway through a sweep of the nodes `nodes` with values `vals`: the first `k` are untouched,
      `temp` waits to be unlinked, and of the rest exactly `kept` remain, with values `keptVals`. */
  ghost predicate Midway<V>(list: List<V>, nodes: seq<Node<V>>, vals: seq<V>, k: nat, temp: Node?<V>,
                            kept: seq<Node<V>>, keptVals: seq<V>)
    reads list, list.nodes, nodes, kept
  {
    list.Valid() && k <= |nodes| && Holds(nodes, vals) && Holds(kept, keptVals) &&
    (temp != null ==> k < |nodes| && temp == nodes[k]) &&
    list.nodes == nodes[..k] + (if temp == null then kept else [temp] + kept) &&
    forall n :: n in list.nodes ==> n in nodes
  }

  /** Of the values from `k` on, `keptVals` is what must survive and `reported` what must be reported. */
  ghost predicate Tally<X>(vals: seq<Entry<X>>, k: nat, connected: bool, now: nat, keptVals: seq<Entry<X>>,
                           reported: seq<Entry<X>>)
  {
    k <= |vals| &&
    keptVals == Survivors(vals[k..], connected, now) && reported == Reports(vals[k..], connected, now)
  }

  lemma TallyStep<X>(vals: seq<Entry<X>>, k: nat, connected: bool, now: nat, keptVals: seq<Entry<X>>,
                     reported: seq<Entry<X>>)
    requires k > 0 && Tally(vals, k, connected, now, keptVals, reported)
    ensures Tally(vals, k - 1, connected, now,
                  if Stays(vals[k - 1], connected, now) then [vals[k - 1]] + keptVals else keptVals,
                  if TimedOut(vals[k - 1], connected, now) then reported + [vals[k - 1]] else reported)
  {
    assert vals[k - 1..][1..] == vals[k..];
  }

  /** The iterator stands on a node of the untouched part; what it yields next is its predecessor. */
  lemma Untouched<V>(list: List<V>, nodes: seq<Node<V>>, vals: seq<V>, k: nat, temp: Node?<V>,
                     kept: seq<Node<V>>, keptVals: seq<V>)
    requires Midway(list, nodes, vals, k, temp, kept, keptVals)
    ensures k <= |nodes| == |vals|
    ensures k > 0 ==> nodes[k - 1].prev == At(nodes, k - 2) && nodes[k - 1].val == vals[k - 1]
  {
    if k > 0 {
      assert list.nodes[k - 1] == nodes[k - 1] && Linked(list.nodes, k - 1);
    }
  }

  /** The deferred removal. */
  method Unlink<V>(list: List<V>, ghost nodes: seq<Node<V>>, ghost vals: seq<V>, ghost k: nat, temp: Node<V>,
                   ghost kept: seq<Node<V>>, ghost keptVals: seq<V>)
    requires Midway(list, nodes, vals, k, temp, kept, keptVals)
    modifies list, nodes
    ensures Midway(list, nodes, vals, k, null, kept, keptVals)
  {
    assert list.nodes[..k] == nodes[..k] && list.nodes[k + 1..] == kept;
    assert forall n :: n in kept ==> n in list.nodes;
    assert forall i :: 0 <= i < |list.nodes| ==> list.nodes[i] in nodes;
    list.Remove(temp, k);
  }

  lemma StepsBack<V>(list: List<V>, nodes: seq<Node<V>>, vals: seq<V>, k: nat, kept: seq<Node<V>>, keptVals: seq<V>)
    requires 0 < k <= |vals| && Midway(list, nodes, vals, k, null, kept, keptVals)
    ensures Midway(list, nodes, vals, k - 1, nodes[k - 1], kept, keptVals)
    ensures Midway(list, nodes, vals, k - 1, null, [nodes[k - 1]] + kept, [vals[k - 1]] + keptVals)
  {
    assert nodes[..k] + kept == nodes[..k - 1] + ([nodes[k - 1]] + kept);
  }

  /** One pass of the sweep loop: fetch, unlink what the pass before has left behind, decide. */
  method Pass<X>(list: List<Entry<X>>, iter: ListIterator<Entry<X>>, temp: Node?<Entry<X>>, connected: bool, now: nat,
                 reported: seq<Entry<X>>, ghost nodes: seq<Node<Entry<X>>>, ghost vals: seq<Entry<X>>, ghost k: nat,
                 ghost kept: seq<Node<Entry<X>>>, ghost keptVals: seq<Entry<X>>)
    returns (more: bool, temp': Node?<Entry<X>>, reported': seq<Entry<X>>, ghost kept': seq<Node<Entry<X>>>,
             ghost keptVals': seq<Entry<X>>)
    requires Midway(list, nodes, vals, k, temp, kept, keptVals) && Tally(vals, k, connected, now, keptVals, reported)
    requires iter.direction.FromTail? && iter.next == At(nodes, k - 1)
    modifies list, nodes, iter
    ensures more <==> k > 0
    ensures !more ==> iter.next == null && Midway(list, nodes, vals, k, null, kept, keptVals)
    ensures !more ==> temp' == null && reported' == reported && kept' == kept && keptVals' == keptVals
    ensures more ==> iter.next == At(nodes, k - 2)
    ensures more ==> Midway(list, nodes, vals, k - 1, temp', kept', keptVals')
    ensures more ==> Tally(vals, k - 1, connected, now, keptVals', reported')
  {
    hide Midway, Tally;
    more, temp', reported', kept', keptVals' := true, null, reported, kept, keptVals;
    Untouched(list, nodes, vals, k, temp, kept, keptVals);
    var node := iter.Next();
    if temp != null {
      Unlink(list, nodes, vals, k, temp, kept, keptVals);
    }
    if node == null {
      more := false;
      return;
    }
    Untouched(list, nodes, vals, k, null, kept, keptVals);
    StepsBack(list, nodes, vals, k, kept, keptVals);
    TallyStep(vals, k, connected, now, keptVals, reported);
    if node.val.state == Invalid {
      temp' := node;
      return;
    }
    if !connected || node.val.deadline > now {
      kept', keptVals' := [node] + kept, [vals[k - 1]] + keptVals;
      return;
    }
    temp' := node;
    reported' := reported + [node.val];
  }

  /** The sweep of the publish and of the subscribe list.  It walks from the tail; a node to be
      removed is remembered and unlinked only after the iterator has moved past it.  `reported`
      is the sequence of timeout events. */
  method Sweep<X>(list: List<Entry<X>>, connected: bool, now: nat) returns (reported: seq<Entry<X>>)
    requires list.Valid()
    modifies list, list.nodes
    ensures list.Valid() && forall n :: n in list.nodes ==> n in old(list.nodes)
    ensures Contents(list) == Survivors(old(Contents(list)), connected, now)
    ensures reported == Reports(old(Contents(list)), connected, now)
  {
    hide Vals;
    reported := [];
    ghost var nodes, vals := list.nodes, Vals(list.nodes);
    HoldsVals(nodes, vals);
    if list.len == 0 {
      return;
    }
    var iter := new ListIterator(list, FromTail);
    var temp: Node?<Entry<X>>, more := null, true;
    ghost var k: nat := |nodes|;
    ghost var kept: seq<Node<Entry<X>>>, keptVals: seq<Entry<X>> := [], [];
    assert Midway(list, nodes, vals, k, temp, kept, keptVals);
    assert Tally(vals, k, connected, now, keptVals, reported);
    hide Midway, Tally, Holds, Survivors, Reports;
    while more
      invariant iter.direction.FromTail? && fresh(iter) && iter.next == At(nodes, k - 1)
      invariant Midway(list, nodes, vals, k, temp, kept, keptVals) && Tally(vals, k, connected, now, keptVals, reported)
      invariant !more ==> k == 0 && temp == null
      decreases more, k
    {
      more, temp, reported, kept, keptVals :=
        Pass(list, iter, temp, connected, now, reported, nodes, vals, k, kept, keptVals);
      k := if more then k - 1 else k;
    }
    Finished(list, nodes, vals, kept, keptVals, connected, now, reported);
  }

  lemma Finished<X>(list: List<Entry<X>>, nodes: seq<Node<Entry<X>>>, vals: seq<Entry<X>>, kept: seq<Node<Entry<X>>>,
                    keptVals: seq<Entry<X>>, connected: bool, now: nat, reported: seq<Entry<X>>)
    requires Midway(list, nodes, vals, 0, null, kept, keptVals) && Tally(vals, 0, connected, now, keptVals, reported)
    ensures list.Valid() && (forall n :: n in list.nodes ==> n in nodes)
    ensures Vals(list.nodes) == Survivors(vals, connected, now) && reported == Reports(vals, connected, now)
  {
    assert nodes[..0] + kept == kept && vals[0..] == vals;
    HoldsVals(kept, keptVals);
  }

  /** Appends a new node for the entry. */
  method Enqueue<X>(list: List<Entry<X>>, entry: Entry<X>) returns (node: Node<Entry<X>>)
    requires list.Valid()
    modifies list, list.nodes
    ensures list.Valid() && fresh(node) && list.nodes == old(list.nodes) + [node]
    ensures Contents(list) == old(Contents(list)) + [entry]
  {
    ghost var nodes, vals := list.nodes, Vals(list.nodes);
    HoldsVals(nodes, vals);
    node := new Node(entry);
    var _ := list.RPush(node);
    HoldsVals(nodes + [node], vals + [entry]);
  }

  /** Takes the last node off again, through the general removal. */
  method Withdraw<X>(list: List<Entry<X>>, node: Node<Entry<X>>)
    requires list.Valid() && list.nodes != [] && list.nodes[|list.nodes| - 1] == node
    modifies list, list.nodes
    ensures list.Valid() && list.nodes == old(list.nodes[..|list.nodes| - 1])
    ensures Contents(list) == old(Contents(list)[..|list.nodes| - 1])
  {
    ghost var last, vals := |list.nodes| - 1, Vals(list.nodes);
    HoldsVals(list.nodes, vals);
    list.Remove(node, last);
    HoldsVals(list.nodes, vals[..last]);
  }
}
