/** The heap-allocated doubly linked list of utils_list.c.  The ghost field `nodes` is the
    abstract sequence; `Valid` says that both chains, the two ends and `len` agree with it. */
module LinkedList {
  import opened Optional

  class Node<V> {
    var prev: Node?<V>
    var next: Node?<V>
    var val: V

    constructor (val: V)
      ensures prev == null && next == null && this.val == val
    {
      prev, next := null, null;
      this.val := val;
    }
  }

  class List<V> {
    var head: Node?<V>
    var tail: Node?<V>
    var len: nat
    ghost var nodes: seq<Node<V>>

    ghost predicate Valid()
      reads this, nodes
    {
      len == |nodes| && Distinct(nodes) &&
      head == At(nodes, 0) && tail == At(nodes, |nodes| - 1) &&
      forall i :: 0 <= i < |nodes| ==> Linked(nodes, i)
    }

    constructor ()
      ensures Valid() && nodes == []
    {
      head, tail, len, nodes := null, null, 0, [];
    }

    /** Appends `node`; a null node is ignored. */
    method RPush(node: Node?<V>) returns (r: Node?<V>)
      requires Valid() && (node != null ==> node !in nodes)
      modifies this, nodes, if node == null then {} else {node}
      ensures Valid() && r == node
      ensures nodes == if node == null then old(nodes) else old(nodes) + [node]
      ensures node != null ==> node.val == old(node.val)
      ensures forall n :: n in old(nodes) ==> n.val == old(n.val)
    {
      if node == null {
        return null;
      }
      if len > 0 {
        node.prev := tail;
        node.next := null;
        assert Linked(nodes, len - 1);
        tail.next := node;
        tail := node;
      } else {
        head, tail := node, node;
        node.prev, node.next := null, null;
      }
      len := len + 1;
      nodes := nodes + [node];
      forall i | 0 <= i < len ensures Linked(nodes, i) {
        if i < len - 1 { assert old(Linked(nodes, i)); }
      }
      return node;
    }

    /** Prepends `node`; a null node is ignored. */
    method LPush(node: Node?<V>) returns (r: Node?<V>)
      requires Valid() && (node != null ==> node !in nodes)
      modifies this, nodes, if node == null then {} else {node}
      ensures Valid() && r == node
      ensures nodes == if node == null then old(nodes) else [node] + old(nodes)
      ensures node != null ==> node.val == old(node.val)
      ensures forall n :: n in old(nodes) ==> n.val == old(n.val)
    {
      if node == null {
        return null;
      }
      if len > 0 {
        node.next := head;
        node.prev := null;
        assert Linked(nodes, 0);
        head.prev := node;
        head := node;
      } else {
        head, tail := node, node;
        node.prev, node.next := null, null;
      }
      len := len + 1;
      nodes := [node] + nodes;
      forall i | 0 <= i < len ensures Linked(nodes, i) {
        if i > 0 { assert old(Linked(nodes, i - 1)); }
      }
      return node;
    }

    /** Takes the last node off, detached; null when the list is empty. */
    method RPop() returns (node: Node?<V>)
      requires Valid()
      modifies this, nodes
      ensures Valid()
      ensures old(nodes) == [] ==> node == null && nodes == []
      ensures old(nodes) != [] ==> old(nodes) == nodes + [node] && node.prev == null && node.next == null
      ensures forall n :: n in old(nodes) ==> n.val == old(n.val)
    {
      if len == 0 {
        return null;
      }
      node := tail;
      len := len - 1;
      ghost var rest := nodes[..|nodes| - 1];
      assert nodes == rest + [node];
      assert Linked(nodes, |nodes| - 1);
      if len > 0 {
        assert Linked(nodes, |nodes| - 2);
        tail := node.prev;
        tail.next := null;
        node.next, node.prev := null, null;
        nodes := rest;
        forall i | 0 <= i < len ensures Linked(nodes, i) {
          assert old(Linked(nodes, i));
        }
      } else {
        head, tail := null, null;
        node.next, node.prev := null, null;
        nodes := [];
      }
    }

    /** Takes the first node off, detached; null when the list is empty. */
    method LPop() returns (node: Node?<V>)
      requires Valid()
      modifies this, nodes
      ensures Valid()
      ensures old(nodes) == [] ==> node == null && nodes == []
      ensures old(nodes) != [] ==> old(nodes) == [node] + nodes && node.prev == null && node.next == null
      ensures forall n :: n in old(nodes) ==> n.val == old(n.val)
    {
      if len == 0 {
        return null;
      }
      node := head;
      len := len - 1;
      ghost var rest := nodes[1..];
      assert nodes == [node] + rest;
      assert Linked(nodes, 0);
      if len > 0 {
        assert Linked(nodes, 1);
        head := node.next;
        head.prev := null;
      } else {
        head, tail := null, null;
      }
      node.next, node.prev := null, null;
      nodes := rest;
      forall i | 0 <= i < len ensures Linked(nodes, i) {
        assert old(Linked(nodes, i + 1));
      }
    }

    /** Unlinks a node wherever it stands; the others keep their order and their values. */
    method Remove(node: Node<V>, ghost k: nat)
      requires Valid() && k < |nodes| && nodes[k] == node
      modifies this, nodes
      ensures Valid() && nodes == old(nodes[..k]) + old(nodes[k + 1..])
      ensures forall n :: n in old(nodes) ==> n.val == old(n.val)
    {
      ghost var rest := nodes[..k] + nodes[k + 1..];
      assert Linked(nodes, k);
      assert k > 0 ==> Linked(nodes, k - 1);
      assert k + 1 < |nodes| ==> Linked(nodes, k + 1);
      if node.prev != null {
        node.prev.next := node.next;
      } else {
        head := node.next;
      }
      if node.next != null {
        node.next.prev := node.prev;
      } else {
        tail := node.prev;
      }
      len := len - 1;
      nodes := rest;
      forall i | 0 <= i < len ensures Linked(nodes, i) {
        assert old(Linked(nodes, if i < k then i else i + 1));
      }
    }
  }

  datatype Direction = FromHead | FromTail

  /** An iterator holds the node it will return next; it advances before the caller works on the
      node returned, so that node may be removed meanwhile. */
  class ListIterator<V> {
    var next: Node?<V>
    const direction: Direction

    constructor (list: List<V>, direction: Direction)
      ensures this.direction == direction
      ensures next == if direction.FromHead? then list.head else list.tail
    {
      next := if direction.FromHead? then list.head else list.tail;
      this.direction := direction;
    }

    method Next() returns (curr: Node?<V>)
      modifies this
      ensures curr == old(next)
      ensures next == if curr == null then null else if direction.FromHead? then curr.next else curr.prev
    {
      curr := next;
      if curr != null {
        next := if direction.FromHead? then curr.next else curr.prev;
      }
    }
  }

  /** Equality of the values, unless the list has a match callback. */
  predicate Matches<V(==)>(callback: Option<(V, V) -> bool>, val: V, other: V) {
    if callback.Some? then callback.value(val, other) else val == other
  }

  /** The first node whose value matches `val`. */
  method Find<V(==)>(list: List<V>, callback: Option<(V, V) -> bool>, val: V) returns (node: Node?<V>)
    requires list.Valid()
    ensures node == null ==> forall n :: n in list.nodes ==> !Matches(callback, val, n.val)
    ensures node != null ==>
              exists k :: 0 <= k < |list.nodes| && list.nodes[k] == node && Matches(callback, val, node.val) &&
                                         forall j :: 0 <= j < k ==> !Matches(callback, val, list.nodes[j].val)
  {
    var it := new ListIterator(list, FromHead);
    ghost var k := 0;
    node := it.Next();
    assert |list.nodes| > 0 ==> Linked(list.nodes, 0);
    while node != null
      invariant 0 <= k <= |list.nodes| && it.direction.FromHead?
      invariant node == At(list.nodes, k) && (node != null ==> it.next == At(list.nodes, k + 1))
      invariant forall j :: 0 <= j < k ==> !Matches(callback, val, list.nodes[j].val)
      decreases |list.nodes| - k
    {
      if callback.Some? {
        if callback.value(val, node.val) {
          return node;
        }
      } else if val == node.val {
        return node;
      }
      node := it.Next();
      k := k + 1;
      assert k < |list.nodes| ==> Linked(list.nodes, k);
    }
  }

  /** The node at `index`, counted from the head, or from the tail if negative. */
  method NodeAt<V>(list: List<V>, index: int) returns (node: Node?<V>)
    requires list.Valid()
    ensures node == At(list.nodes, if index < 0 then |list.nodes| + index else index)
  {
    var direction := FromHead;
    var left := index;
    if left < 0 {
      direction := FromTail;
      left := -left - 1;
    }
    if left >= list.len {
      return null;
    }
    var it := new ListIterator(list, direction);
    node := it.Next();
    ghost var k := if direction.FromHead? then 0 else |list.nodes| - 1;
    assert Linked(list.nodes, k);
    while left > 0
      invariant 0 <= k < |list.nodes| && node == list.nodes[k] && 0 <= left && it.direction == direction
      invariant it.next == At(list.nodes, if direction.FromHead? then k + 1 else k - 1)
      invariant direction.FromHead? ==> k + left == index
      invariant direction.FromTail? ==> k - left == |list.nodes| + index
    {
      k := if direction.FromHead? then k + 1 else k - 1;
      assert Linked(list.nodes, k);
      node := it.Next();
      left := left - 1;
    }
  }

  ghost predicate Distinct<T>(s: seq<T>) {
    forall i, j :: 0 <= i < j < |s| ==> s[i] != s[j]
  }

  /** The node at position `i`, null outside the sequence. */
  ghost function At<V>(nodes: seq<Node<V>>, i: int): Node?<V> {
    if 0 <= i < |nodes| then nodes[i] else null
  }

  ghost predicate Linked<V>(nodes: seq<Node<V>>, i: nat)
    requires i < |nodes|
    reads nodes
  {
    nodes[i].prev == At(nodes, i - 1) && nodes[i].next == At(nodes, i + 1)
  }

  /** Writing node values leaves the list well formed. */
  twostate lemma ValidKept<V>(list: List<V>)
    requires old(list.Valid()) && list.len == old(list.len)
    requires list.nodes == old(list.nodes) && list.head == old(list.head) && list.tail == old(list.tail)
    requires forall n :: n in list.nodes ==> n.prev == old(n.prev) && n.next == old(n.next)
    ensures list.Valid()
  {
    forall i | 0 <= i < |list.nodes| ensures Linked(list.nodes, i) {
      assert old(Linked(list.nodes, i));
    }
  }
}
