/** What SHA-256 and MD5 share: both digest a message by cutting its padded form into 64-byte
    blocks and folding a compression function over them.  `Fold` is the one-shot reference that
    the streaming contexts of the two engines are proved against. */
module BlockHash {

  type byte = bv8
  type uint32 = x: int | 0 <= x < TWO_32
  type Block = b: seq<byte> | |b| == 64 witness seq(64, _ => 0)

  const TWO_32 := 0x1_0000_0000
  const TWO_64 := 0x1_0000_0000_0000_0000

  /** Folds `f` over the consecutive 64-byte blocks of `data`, first block first. */
  function Fold<H>(f: (H, Block) -> H, h: H, data: seq<byte>): H
    requires |data| % 64 == 0
    decreases |data|
  {
    if data == [] then h else Fold(f, f(h, data[..64]), data[64..])
  }

  lemma {:induction false} FoldConcat<H>(f: (H, Block) -> H, h: H, a: seq<byte>, b: seq<byte>)
    requires |a| % 64 == 0 && |b| % 64 == 0
    ensures |a + b| % 64 == 0
    ensures Fold(f, h, a + b) == Fold(f, Fold(f, h, a), b)
    decreases |a|
  {
    if a == [] {
      assert a + b == b;
    } else {
      FoldConcat(f, f(h, a[..64]), a[64..], b);
      assert (a + b)[..64] == a[..64];
      assert (a + b)[64..] == a[64..] + b;
    }
  }

  /** One more block extends the fold of a prefix by one application of `f`. */
  lemma FoldStep<H>(f: (H, Block) -> H, h: H, data: seq<byte>, k: nat)
    requires k % 64 == 0 && k + 64 <= |data|
    ensures Fold(f, h, data[..k + 64]) == f(Fold(f, h, data[..k]), data[k..k + 64])
  {
    var block := data[k..k + 64];
    assert data[..k + 64] == data[..k] + block;
    FoldConcat(f, h, data[..k], block);
    assert block[..64] == block && block[64..] == [];
  }

  /** One of the four entries of a row. */
  function Pick<X>(j: nat, w: X, x: X, y: X, z: X): X {
    if j == 0 then w else if j == 1 then x else if j == 2 then y else z
  }

  /** The length of the part of an `n`-byte message that consists of whole blocks. */
  function Whole(n: nat): (w: nat)
    ensures w % 64 == 0 && w <= n < w + 64
  {
    n - n % 64
  }

  lemma WholeIs(n: nat, base: nat, r: nat)
    requires n == base + r && base % 64 == 0 && r < 64
    ensures Whole(n) == base && n % 64 == r
  {
  }

  /** 256 to the power `k`. */
  function Pow256(k: nat): (p: nat)
    requires k < 8
    ensures p > 0
  {
    if k == 0 then 1 else if k == 1 then 0x100 else if k == 2 then 0x1_0000 else if k == 3 then 0x100_0000
    else if k == 4 then 0x1_0000_0000 else if k == 5 then 0x100_0000_0000 else if k == 6 then 0x1_0000_0000_0000
    else 0x100_0000_0000_0000
  }

  /** Byte `k` of `v`, counting from the least significant one. */
  function ByteAt(v: nat, k: nat): byte
    requires k < 8
  {
    (v / Pow256(k) % 256) as byte
  }

  function Zeros(n: nat): (z: seq<byte>)
    ensures |z| == n
  {
    seq(n, _ => 0)
  }

  /** The 1 bit and the zero bits that bring an `n`-byte message to 56 bytes past a block
      boundary (section 5.1.1 of FIPS 180-4, section 3.1 of RFC 1321). */
  function PadBits(n: nat): (p: seq<byte>)
  {
    [0x80] + Zeros((55 - n) % 64)
  }

  /** The number of zero bytes is the smallest one that leaves room for exactly the length field. */
  lemma PadBitsMinimal(n: nat, zeros: nat)
    ensures 1 <= |PadBits(n)| <= 64 && (n + |PadBits(n)|) % 64 == 56
    ensures (n + 1 + zeros) % 64 == 56 ==> |PadBits(n)| <= 1 + zeros
  {
    var z := (55 - n) % 64;
    var q := (55 - n) / 64;
    assert 55 - n == 64 * q + z;
    assert n + 1 + z == 56 + 64 * (-q);
    if (n + 1 + zeros) % 64 == 56 {
      var p := (n + 1 + zeros) / 64;
      assert zeros - z == 64 * (p + q);
    }
  }

  /** The padding is a prefix of the static table, of the length the finish functions compute. */
  lemma PadBitsFromTable(n: nat, table: seq<byte>)
    requires table == [0x80] + Zeros(63)
    ensures var last := n % 64;
            var padn := if last < 56 then 56 - last else 120 - last;
            padn <= 64 && table[..padn] == PadBits(n)
  {
    var last := n % 64;
    var padn := if last < 56 then 56 - last else 120 - last;
    assert (55 - n) % 64 == (55 - last) % 64;
    assert table[..padn] == [0x80] + Zeros(padn - 1);
  }

  lemma DivMod32(a: int, q: int, r: int)
    requires a == TWO_32 * q + r && 0 <= r < TWO_32
    ensures a / TWO_32 == q && a % TWO_32 == r
  {
  }

  lemma DivMod64(a: int, q: int, r: int)
    requires a == TWO_64 * q + r && 0 <= r < TWO_64
    ensures a / TWO_64 == q && a % TWO_64 == r
  {
  }

  /** The two counter words, advanced by `ilen` with the carry the update functions compute,
      still hold the byte count modulo 2^64. */
  lemma CounterAdvances(low: uint32, high: uint32, n: nat, ilen: uint32)
    requires low + TWO_32 * high == n % TWO_64
    ensures var low' := (low + ilen) % TWO_32;
            var high' := if low' < ilen then (high + 1) % TWO_32 else high;
            low' + TWO_32 * high' == (n + ilen) % TWO_64
  {
    var q, carry := n / TWO_64, (low + ilen) / TWO_32;
    var low' := (low + ilen) % TWO_32;
    var high' := (high + carry) % TWO_32;
    var over := (high + carry) / TWO_32;
    assert low + ilen == TWO_32 * carry + low' && (carry == 1 <==> low' < ilen);
    assert high + carry == TWO_32 * over + high';
    DivMod64(n + ilen, q + over, low' + TWO_32 * high');
  }

  lemma CounterResidue(low: uint32, high: uint32, n: nat)
    requires low + TWO_32 * high == n % TWO_64
    ensures low % 64 == n % 64
  {
    AddBlocks(low, 0x400_0000 * high + 0x400_0000_0000_0000 * (n / TWO_64));
  }

  lemma AddBlocks(r: nat, k: nat)
    ensures (r + 64 * k) % 64 == r % 64
  {
  }

  /** Shifting the two counter words left by three, as the finish functions do, gives the bit
      length modulo 2^64. */
  lemma BitLength(low: uint32, high: uint32, n: nat)
    requires low + TWO_32 * high == n % TWO_64
    ensures (low * 8) % TWO_32 == (8 * n) % TWO_32
    ensures (low / 0x2000_0000) + (high * 8) % TWO_32 == (8 * n) / TWO_32 % TWO_32
  {
    var q := n / TWO_64;
    var top, low' := low / 0x2000_0000, 8 * (low % 0x2000_0000);
    var over, high' := high / 0x2000_0000, 8 * (high % 0x2000_0000);
    assert 8 * low == TWO_32 * top + low';
    assert 8 * high == TWO_32 * over + high';
    DivMod32(low * 8, top, low');
    DivMod32(high * 8, over, high');
    assert 8 * n == TWO_32 * (8 * high + top + 8 * TWO_32 * q) + low';
    DivMod32(8 * n, 8 * high + top + 8 * TWO_32 * q, low');
    DivMod32(8 * high + top + 8 * TWO_32 * q, over + 8 * q, high' + top);
  }

  /** The low and high words of the bit length supply its bytes 0-3 and 4-7. */
  lemma LengthWords(n: nat)
    ensures forall k :: 0 <= k < 4 ==> ByteAt((8 * n) % TWO_32, k) == ByteAt(8 * n, k)
    ensures forall k :: 0 <= k < 4 ==> ByteAt((8 * n) / TWO_32 % TWO_32, k) == ByteAt(8 * n, k + 4)
  {
    var v := 8 * n;
    forall k | 0 <= k < 4 ensures ByteAt(v % TWO_32, k) == ByteAt(v, k) {
      LowBytes(v, k);
    }
    forall k | 0 <= k < 4 ensures ByteAt(v / TWO_32 % TWO_32, k) == ByteAt(v, k + 4) {
      LowBytes(v / TWO_32, k);
      HighBytes(v, k);
    }
  }

  /** Bytes 0-3 of `v` do not depend on what lies above its low 32 bits. */
  lemma LowBytes(v: nat, k: nat)
    requires k < 4
    ensures ByteAt(v % TWO_32, k) == ByteAt(v, k)
  {
    hide Pow256;
    LowDigits(v, k);
  }

  lemma LowDigits(v: nat, k: nat)
    requires k < 4
    ensures (v % TWO_32) / Pow256(k) % 256 == v / Pow256(k) % 256
  {
    if k == 0 {
      Digit0(v);
    } else if k == 1 {
      Digit1(v);
    } else if k == 2 {
      Digit2(v);
    } else {
      Digit3(v);
    }
  }

  lemma Digit0(v: nat)
    ensures (v % TWO_32) % 256 == v % 256
  {
    assert v == v % TWO_32 + 256 * (0x100_0000 * (v / TWO_32));
  }

  lemma Digit1(v: nat)
    ensures (v % TWO_32) / 0x100 % 256 == v / 0x100 % 256
  {
    assert v / 0x100 == (v % TWO_32) / 0x100 + 256 * (0x1_0000 * (v / TWO_32));
  }

  lemma Digit2(v: nat)
    ensures (v % TWO_32) / 0x1_0000 % 256 == v / 0x1_0000 % 256
  {
    assert v / 0x1_0000 == (v % TWO_32) / 0x1_0000 + 256 * (0x100 * (v / TWO_32));
  }

  lemma Digit3(v: nat)
    ensures (v % TWO_32) / 0x100_0000 % 256 == v / 0x100_0000 % 256
  {
    assert v / 0x100_0000 == (v % TWO_32) / 0x100_0000 + 256 * (v / TWO_32);
  }

  lemma HighBytes(v: nat, k: nat)
    requires k < 4
    ensures ByteAt(v / TWO_32, k) == ByteAt(v, k + 4)
  {
  }

  /** The static padding table: 0x80 and 63 zero bytes. */
  method PaddingTable() returns (table: array<byte>)
    ensures fresh(table) && table[..] == [0x80] + Zeros(63)
  {
    table := new byte[64](i => if i == 0 then 0x80 else 0);
  }

  method Memcpy(dst: array<byte>, to: nat, src: array<byte>, from: nat, n: nat)
    requires dst != src && to + n <= dst.Length && from + n <= src.Length
    modifies dst
    ensures dst[..] == old(dst[..to]) + src[from..from + n] + old(dst[to + n..])
  {
    for i := 0 to n
      invariant dst[..] == old(dst[..to]) + src[from..from + i] + old(dst[to + i..])
    {
      dst[to + i] := src[from + i];
    }
  }

  /** Past the first `n` bytes, `all` is what the caller passes in. */
  ghost predicate Feeds(all: seq<byte>, n: nat, input: array<byte>, ilen: nat)
    reads input
  {
    ilen <= input.Length && n + ilen == |all| && all[n..] == input[..ilen]
  }
}
