/** Packet identifiers: a 16-bit counter that skips zero. */
module PacketIds {
  const MAX_PACKET_ID := 65535

  type PacketId = n: int | 1 <= n <= MAX_PACKET_ID witness 1

  function NextId(id: PacketId): PacketId {
    if id == MAX_PACKET_ID then 1 else id + 1
  }

  /** The id handed out by the `n`-th allocation after `id`. */
  function IdAfter(id: PacketId, n: nat): PacketId {
    if n == 0 then id else NextId(IdAfter(id, n - 1))
  }

  lemma {:induction false} IdAfterIsModular(id: PacketId, n: nat)
    ensures IdAfter(id, n) == (id - 1 + n) % MAX_PACKET_ID + 1
  {
    if n > 0 {
      IdAfterIsModular(id, n - 1);
      NextResidue(id - 1 + (n - 1));
    }
  }

  lemma NextResidue(a: nat)
    ensures (a + 1) % MAX_PACKET_ID == if a % MAX_PACKET_ID == MAX_PACKET_ID - 1 then 0 else a % MAX_PACKET_ID + 1
  {
    var q, r := a / MAX_PACKET_ID, a % MAX_PACKET_ID;
    assert a + 1 == q * MAX_PACKET_ID + (r + 1);
  }

  /** Two allocations share an id exactly when a multiple of 65535 lies between them; so any 65535
      consecutive ids are pairwise distinct. */
  lemma IdsRepeatExactly(id: PacketId, m: nat, n: nat)
    requires m <= n
    ensures IdAfter(id, m) == IdAfter(id, n) <==> (n - m) % MAX_PACKET_ID == 0
  {
    IdAfterIsModular(id, m);
    IdAfterIsModular(id, n);
    var a, b := id - 1 + m, id - 1 + n;
    assert n - m == b - a;
    SameResidue(a, b);
  }

  lemma SameResidue(a: int, b: int)
    ensures a % MAX_PACKET_ID == b % MAX_PACKET_ID <==> (b - a) % MAX_PACKET_ID == 0
  {
    var p, q := a / MAX_PACKET_ID, b / MAX_PACKET_ID;
    var r, s := a % MAX_PACKET_ID, b % MAX_PACKET_ID;
    var t, u := (b - a) / MAX_PACKET_ID, (b - a) % MAX_PACKET_ID;
    assert b - a == MAX_PACKET_ID * (q - p) + (s - r);
    if r == s {
      assert (b - a) == MAX_PACKET_ID * (q - p);
    }
    if u == 0 {
      assert s - r == MAX_PACKET_ID * (t - q + p);
    }
  }
}
