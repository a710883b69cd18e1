/** The streaming SHA-256 engine (utils_sha2.c) and HMAC-SHA-256 on top of it. */
module Sha256Engine {
  import opened BlockHash
  import opened Sha256Spec

  // The bit macros of the compression function, as the source writes them.
  function S0(x: bv32): bv32 {
    (((x & 0xFFFF_FFFF) >> 7) | (x << 25))
    ^ (((x & 0xFFFF_FFFF) >> 18) | (x << 14))
    ^ ((x & 0xFFFF_FFFF) >> 3)
  }

  function S1(x: bv32): bv32 {
    (((x & 0xFFFF_FFFF) >> 17) | (x << 15))
    ^ (((x & 0xFFFF_FFFF) >> 19) | (x << 13))
    ^ ((x & 0xFFFF_FFFF) >> 10)
  }

  function S2(x: bv32): bv32 {
    (((x & 0xFFFF_FFFF) >> 2) | (x << 30))
    ^ (((x & 0xFFFF_FFFF) >> 13) | (x << 19))
    ^ (((x & 0xFFFF_FFFF) >> 22) | (x << 10))
  }

  function S3(x: bv32): bv32 {
    (((x & 0xFFFF_FFFF) >> 6) | (x << 26))
    ^ (((x & 0xFFFF_FFFF) >> 11) | (x << 21))
    ^ (((x & 0xFFFF_FFFF) >> 25) | (x << 7))
  }

  function F0(x: bv32, y: bv32, z: bv32): bv32 { (x & y) | (z & (x | y)) }
  function F1(x: bv32, y: bv32, z: bv32): bv32 { z ^ (x & (y ^ z)) }

  /** The rewritten macros compute the functions of section 4.1.2. */
  lemma SigmasAreTheStandard(x: bv32)
    ensures S0(x) == SmallSigma0(x) && S1(x) == SmallSigma1(x)
    ensures S2(x) == BigSigma0(x) && S3(x) == BigSigma1(x)
  {
  }

  lemma ChoiceFormsAreTheStandard(x: bv32, y: bv32, z: bv32)
    ensures F0(x, y, z) == Maj(x, y, z) && F1(x, y, z) == Ch(x, y, z)
  {
    MajorityBits(x, y, z);
    ChoiceBits(x, y, z);
  }

  lemma MajorityBits(x: bv32, y: bv32, z: bv32)
    ensures ((x & y) | (z & (x | y))) == (x & y) ^ (x & z) ^ (y & z)
  {
  }

  lemma ChoiceBits(x: bv32, y: bv32, z: bv32)
    ensures z ^ (x & (y ^ z)) == (x & y) ^ (!x & z)
  {
  }

  function RegsOf(s: seq<bv32>): Regs
    requires |s| == 8
  {
    Regs(s[0], s[1], s[2], s[3], s[4], s[5], s[6], s[7])
  }

  /** The step macro: of the eight working variables it rewrites only `d` and `h`. */
  method P(ghost r: Regs, a: bv32, b: bv32, c: bv32, d: bv32, e: bv32, f: bv32, g: bv32, h: bv32, x: bv32, k: bv32)
    returns (d': bv32, h': bv32)
    requires r == Regs(a, b, c, d, e, f, g, h)
    ensures Round(r, k, x) == Regs(h', a, b, c, d', e, f, g)
  {
    hide S2, S3, F0, F1, BigSigma0, BigSigma1, Maj, Ch, Plus;
    SigmasAreTheStandard(e);
    SigmasAreTheStandard(a);
    ChoiceFormsAreTheStandard(e, f, g);
    ChoiceFormsAreTheStandard(a, b, c);
    var temp1 := Plus(Plus(Plus(Plus(h, S3(e)), F1(e, f, g)), k), x);
    var temp2 := Plus(S2(a), F0(a, b, c));
    d' := Plus(d, temp1);
    h' := Plus(temp1, temp2);
  }

  /** One pass of the round loop: the step macro, then the rotation of the eight variables. */
  method RoundStep(a: array<bv32>, x: bv32, k: bv32)
    requires a.Length == 8
    modifies a
    ensures RegsOf(a[..]) == Round(RegsOf(old(a[..])), k, x)
  {
    hide Round;
    a[3], a[7] := P(RegsOf(a[..]), a[0], a[1], a[2], a[3], a[4], a[5], a[6], a[7], x, k);
    var temp1 := a[7];
    a[7] := a[6];
    a[6] := a[5];
    a[5] := a[4];
    a[4] := a[3];
    a[3] := a[2];
    a[2] := a[1];
    a[1] := a[0];
    a[0] := temp1;
  }

  /** The loop that copies the digest state into the working variables. */
  method Load(state: array<bv32>) returns (a: array<bv32>)
    requires state.Length == 8
    ensures fresh(a) && a[..] == state[..]
  {
    a := new bv32[8];
    for i := 0 to 8
      invariant a[..i] == state[..i]
    {
      a[i] := state[i];
    }
  }

  /** The loop that adds the working variables back into the digest state. */
  method AddInto(state: array<bv32>, a: array<bv32>)
    requires state.Length == a.Length == 8 && state != a
    modifies state
    ensures RegsOf(state[..]) == AddRegs(RegsOf(old(state[..])), RegsOf(a[..]))
  {
    hide Plus;
    for i := 0 to 8
      invariant forall j :: 0 <= j < i ==> state[j] == Plus(old(state[j]), a[j])
      invariant forall j :: i <= j < 8 ==> state[j] == old(state[j])
    {
      state[i] := Plus(state[i], a[i]);
    }
  }

  /** The schedule macro: the next word from the sixteen before it. */
  method R(w: array<bv32>, t: nat, ghost m: Block) returns (x: bv32)
    requires w.Length == 64 && 16 <= t < 64
    requires forall j :: 0 <= j < t ==> w[j] == Schedule(m, j)
    ensures x == Schedule(m, t)
  {
    hide S0, S1, SmallSigma0, SmallSigma1, WordBE, Plus;
    SigmasAreTheStandard(w[t - 2]);
    SigmasAreTheStandard(w[t - 15]);
    x := Plus(Plus(Plus(S1(w[t - 2]), w[t - 7]), S0(w[t - 15])), w[t - 16]);
  }

  lemma WordBESlice(s: seq<byte>, ofs: nat, m: seq<byte>, i: nat)
    requires ofs + |m| <= |s| && m == s[ofs..ofs + |m|] && i + 4 <= |m|
    ensures WordBE(s, ofs + i) == WordBE(m, i)
  {
  }

  method GetUint32BE(b: array<byte>, i: nat) returns (n: bv32)
    requires i + 4 <= b.Length
    ensures n == WordBE(b[..], i)
  {
    n := ((b[i] as bv32) << 24) | ((b[i + 1] as bv32) << 16) | ((b[i + 2] as bv32) << 8) | (b[i + 3] as bv32);
  }

  method PutUint32BE(n: bv32, b: array<byte>, i: nat)
    requires i + 4 <= b.Length
    modifies b
    ensures b[..i + 4] == old(b[..i]) + BytesBE(n)
    ensures forall k :: i + 4 <= k < b.Length ==> b[k] == old(b[k])
  {
    b[i] := (n >> 24) as byte;
    b[i + 1] := ((n >> 16) & 0xFF) as byte;
    b[i + 2] := ((n >> 8) & 0xFF) as byte;
    b[i + 3] := (n & 0xFF) as byte;
  }

  /** Word `i` of the schedule, read from the block or computed from earlier words. */
  method ScheduleWord(data: array<byte>, ofs: nat, w: array<bv32>, i: nat, ghost m: Block) returns (x: bv32)
    requires ofs + 64 <= data.Length && m == data[ofs..ofs + 64]
    requires w.Length == 64 && i < 64
    requires forall j :: 0 <= j < i ==> w[j] == Schedule(m, j)
    ensures x == Schedule(m, i)
  {
    hide WordBE, Plus;
    if i < 16 {
      WordBESlice(data[..], ofs, m, 4 * i);
      x := GetUint32BE(data, ofs + 4 * i);
    } else {
      x := R(w, i, m);
    }
  }

  /** The same store for a counter word, which this model keeps as an integer. */
  method PutCounterBE(n: uint32, b: array<byte>, i: nat)
    requires i + 4 <= b.Length
    modifies b
    ensures b[..] == old(b[..i]) + [ByteAt(n, 3), ByteAt(n, 2), ByteAt(n, 1), ByteAt(n, 0)] + old(b[i + 4..])
  {
    b[i] := ByteAt(n, 3);
    b[i + 1] := ByteAt(n, 2);
    b[i + 2] := ByteAt(n, 1);
    b[i + 3] := ByteAt(n, 0);
  }

  lemma LengthFieldWords(n: nat, high: uint32, low: uint32)
    requires forall k :: 0 <= k < 4 ==> ByteAt(low, k) == ByteAt(8 * n, k)
    requires forall k :: 0 <= k < 4 ==> ByteAt(high, k) == ByteAt(8 * n, k + 4)
    ensures LengthField(n) == [ByteAt(high, 3), ByteAt(high, 2), ByteAt(high, 1), ByteAt(high, 0)] +
                              [ByteAt(low, 3), ByteAt(low, 2), ByteAt(low, 1), ByteAt(low, 0)]
  {
    hide ByteAt;
    var l := LengthField(n);
    assert l == [l[0], l[1], l[2], l[3]] + [l[4], l[5], l[6], l[7]];
  }

  class Context {
    var total0: uint32
    var total1: uint32
    const state: array<bv32>
    const buffer: array<byte>
    var is224: bool
    /** Every byte absorbed since the last `Starts`. */
    ghost var absorbed: seq<byte>

    ghost predicate Shape() {
      state.Length == 8 && buffer.Length == 64
    }

    /** The digest state has folded all whole blocks, the buffer holds the rest, and the two
        counter words hold the byte count modulo 2^64. */
    ghost predicate Valid()
      reads this, state, buffer
    {
      var n := |absorbed|;
      Shape() && !is224 &&
      total0 + TWO_32 * total1 == n % TWO_64 &&
      RegsOf(state[..]) == Fold(Compress, IV, absorbed[..Whole(n)]) &&
      buffer[..n % 64] == absorbed[Whole(n)..]
    }

    constructor Init()
      ensures Shape() && fresh(state) && fresh(buffer)
    {
      total0, total1, is224, absorbed := 0, 0, false, [];
      state := new bv32[8](_ => 0);
      buffer := new byte[64](_ => 0);
    }

    method Starts()
      requires Shape()
      modifies this, state
      ensures Valid() && absorbed == []
    {
      total0, total1 := 0, 0;
      state[0], state[1], state[2], state[3] := 0x6A09E667, 0xBB67AE85, 0x3C6EF372, 0xA54FF53A;
      state[4], state[5], state[6], state[7] := 0x510E527F, 0x9B05688C, 0x1F83D9AB, 0x5BE0CD19;
      is224 := false;
      absorbed := [];
    }

    method Process(data: array<byte>, ofs: nat)
      requires Shape() && ofs + 64 <= data.Length
      modifies state
      ensures RegsOf(state[..]) == Compress(RegsOf(old(state[..])), data[ofs..ofs + 64])
    {
      hide Plus, Round, K, Schedule, RegsOf, AddRegs;
      ghost var m: Block := data[ofs..ofs + 64];
      ghost var was := state[..];
      ghost var start := RegsOf(was);
      var w := new bv32[64];
      var a := Load(state);
      for i := 0 to 64
        invariant state[..] == was && data[ofs..ofs + 64] == m
        invariant RegsOf(a[..]) == Rounds(m, start, i)
        invariant forall j :: 0 <= j < i ==> w[j] == Schedule(m, j)
      {
        w[i] := ScheduleWord(data, ofs, w, i, m);
        RoundStep(a, w[i], K(i));
      }
      AddInto(state, a);
    }

    /** Midway through an update: of the bytes `all`, the first `done` are consumed, the last
        `left` of them wait in the buffer and the rest is folded into the state. */
    ghost predicate Consumed(all: seq<byte>, done: nat, left: nat)
      reads state, buffer
    {
      Shape() && left < 64 && left <= done <= |all| && (done - left) % 64 == 0 &&
      RegsOf(state[..]) == Fold(Compress, IV, all[..done - left]) &&
      buffer[..left] == all[done - left..done]
    }

    /** Adds `ilen` to the 64-bit byte count kept in two words. */
    method Count(ilen: uint32, ghost n: nat)
      requires total0 + TWO_32 * total1 == n % TWO_64
      modifies `total0, `total1
      ensures total0 + TWO_32 * total1 == (n + ilen) % TWO_64
    {
      CounterAdvances(total0, total1, n, ilen);
      total0 := (total0 + ilen) % TWO_32;
      if total0 < ilen {
        total1 := (total1 + 1) % TWO_32;
      }
    }

    /** Completes the buffered block with the first `fill` bytes of the input and processes it. */
    method TopUp(input: array<byte>, ilen: nat, left: nat, fill: nat, ghost all: seq<byte>, ghost n: nat)
      requires input != buffer && Feeds(all, n, input, ilen)
      requires Consumed(all, n, left) && left + fill == 64 && fill <= ilen
      modifies state, buffer
      ensures Consumed(all, n + fill, 0)
    {
      hide Compress, Fold, RegsOf;
      assert input[0..fill] == input[..ilen][..fill] == all[n..n + fill];
      Memcpy(buffer, left, input, 0, fill);
      assert buffer[0..64] == all[n - left..n - left + 64];
      FoldStep(Compress, IV, all, n - left);
      Process(buffer, 0);
    }

    /** Processes a whole block of the input where it lies. */
    method Direct(input: array<byte>, ilen: nat, pos: nat, ghost all: seq<byte>, ghost n: nat)
      requires Feeds(all, n, input, ilen) && Consumed(all, n + pos, 0) && pos + 64 <= ilen
      modifies state
      ensures Consumed(all, n + pos + 64, 0)
    {
      hide Compress, Fold, RegsOf;
      assert input[pos..pos + 64] == all[n + pos..n + pos + 64];
      FoldStep(Compress, IV, all, n + pos);
      Process(input, pos);
    }

    /** Keeps the last, incomplete block in the buffer. */
    method Keep(input: array<byte>, ilen: nat, pos: nat, left: nat, ghost all: seq<byte>, ghost n: nat)
      requires input != buffer && Feeds(all, n, input, ilen)
      requires Consumed(all, n + pos, left) && pos <= ilen && left + ilen - pos < 64
      modifies buffer
      ensures Consumed(all, |all|, left + ilen - pos)
    {
      hide Compress, Fold, RegsOf;
      Memcpy(buffer, left, input, pos, ilen - pos);
      assert buffer[..left + ilen - pos] == all[n + pos - left..];
    }

    lemma BeginUpdate(all: seq<byte>)
      requires Valid() && absorbed <= all
      ensures total0 % 64 == |absorbed| % 64 && total0 + TWO_32 * total1 == |absorbed| % TWO_64
      ensures Shape() && !is224 && Consumed(all, |absorbed|, |absorbed| % 64)
    {
      hide Compress, Fold, RegsOf;
      CounterResidue(total0, total1, |absorbed|);
      var w := Whole(|absorbed|);
      assert all[..w] == absorbed[..w];
    }

    lemma EndUpdate(left: nat)
      requires Consumed(absorbed, |absorbed|, left) && !is224
      requires total0 + TWO_32 * total1 == |absorbed| % TWO_64
      ensures Valid()
    {
      hide Compress, Fold, RegsOf;
      WholeIs(|absorbed|, |absorbed| - left, left);
    }

    /** Absorbs the first `ilen` bytes of `input`, however they cut across block boundaries. */
    method Update(input: array<byte>, ilen: uint32)
      requires Valid() && ilen <= input.Length && input != buffer
      modifies this, state, buffer
      ensures Valid() && absorbed == old(absorbed) + old(input[..ilen])
    {
      hide Valid, Consumed;
      if ilen == 0 {
        assert absorbed == absorbed + input[..0];
        return;
      }
      ghost var n, all := |absorbed|, absorbed + input[..ilen];
      BeginUpdate(all);
      assert Feeds(all, n, input, ilen);
      hide Feeds;
      var left := total0 % 64;
      var fill := 64 - left;
      Count(ilen, n);
      absorbed := all;

      var pos, rest := 0, ilen;
      if left != 0 && rest >= fill {
        TopUp(input, ilen, left, fill, all, n);
        pos, rest, left := fill, rest - fill, 0;
      }
      while rest >= 64
        invariant pos + rest == ilen && 0 <= rest && 0 <= left < 64 && (left > 0 ==> rest < 64 - left)
        invariant Feeds(all, n, input, ilen) && Consumed(all, n + pos, left)
        invariant absorbed == all && total0 + TWO_32 * total1 == |all| % TWO_64 && !is224
      {
        Direct(input, ilen, pos, all, n);
        pos, rest := pos + 64, rest - 64;
      }
      if rest > 0 {
        Keep(input, ilen, pos, left, all, n);
      }
      EndUpdate(left + rest);
    }

    /** The bit length of everything absorbed, as the eight bytes that close the padding. */
    method BitLengthBytes() returns (msglen: array<byte>)
      requires Valid()
      ensures fresh(msglen) && msglen[..] == LengthField(|absorbed|)
    {
      hide Compress, Fold, RegsOf, ByteAt, LengthField;
      var high := (total0 / 0x2000_0000) + (total1 * 8) % TWO_32;
      var low := (total0 * 8) % TWO_32;
      BitLength(total0, total1, |absorbed|);
      msglen := new byte[8];
      PutCounterBE(high, msglen, 0);
      PutCounterBE(low, msglen, 4);
      LengthWords(|absorbed|);
      LengthFieldWords(|absorbed|, high, low);
    }

    /** Pads, absorbs the length and writes the digest: exactly the one-shot SHA-256 of
        everything absorbed. */
    method Finish(output: array<byte>)
      requires Valid() && output.Length >= 32 && output != buffer
      modifies this, state, buffer, output
      ensures output[..] == Sha256(old(absorbed)) + old(output[32..])
      ensures Shape()
    {
      hide Compress, Fold, RegsOf, DigestBytes;
      ghost var n := |absorbed|;
      var msglen := BitLengthBytes();
      CounterResidue(total0, total1, n);
      var last := total0 % 64;
      var padn := if last < 56 then 56 - last else 120 - last;
      var padding := PaddingTable();
      PadBitsFromTable(n, padding[..]);
      Update(padding, padn);
      Update(msglen, 8);
      assert msglen[..8] == LengthField(n);
      assert absorbed == Pad(old(absorbed));
      assert absorbed[..|absorbed|] == absorbed;
      WriteDigest(output);
    }

    /** The eight stores of the digest words; the last one is skipped for SHA-224. */
    method WriteDigest(output: array<byte>)
      requires Shape() && !is224 && output.Length >= 32
      modifies output
      ensures output[..] == DigestBytes(RegsOf(old(state[..]))) + old(output[32..])
    {
      hide BytesBE;
      ghost var r := RegsOf(state[..]);
      PutUint32BE(state[0], output, 0);
      PutUint32BE(state[1], output, 4);
      ghost var d := BytesBE(r.a) + BytesBE(r.b);
      assert output[..8] == d;
      PutUint32BE(state[2], output, 8);
      d := d + BytesBE(r.c);
      assert output[..12] == d;
      PutUint32BE(state[3], output, 12);
      d := d + BytesBE(r.d);
      assert output[..16] == d;
      PutUint32BE(state[4], output, 16);
      d := d + BytesBE(r.e);
      assert output[..20] == d;
      PutUint32BE(state[5], output, 20);
      d := d + BytesBE(r.f);
      assert output[..24] == d;
      PutUint32BE(state[6], output, 24);
      d := d + BytesBE(r.g);
      assert output[..28] == d;
      if !is224 {
        PutUint32BE(state[7], output, 28);
        d := d + BytesBE(r.h);
        assert output[..32] == d;
      }
      assert output[..] == d + old(output[32..]);
    }
  }

  /** The one-shot entry point. */
  method Sha256Once(input: array<byte>, ilen: uint32, output: array<byte>)
    requires ilen <= input.Length && output.Length >= 32
    modifies output
    ensures output[..] == Sha256(old(input[..ilen])) + old(output[32..])
  {
    hide Sha256, Context.Valid;
    var ctx := new Context.Init();
    ctx.Starts();
    ctx.Update(input, ilen);
    assert ctx.absorbed == input[..ilen];
    ctx.Finish(output);
  }

  /** HMAC as section 2 of RFC 2104 defines it: two passes over the key, zero-extended to the
      64-byte block and combined with the inner and outer pad bytes. */
  function PaddedKey(key: seq<byte>, pad: byte): (k: seq<byte>)
    ensures |k| == 64
  {
    seq(64, i requires 0 <= i < 64 => (if i < |key| then key[i] else 0) ^ pad)
  }

  function Hmac(key: seq<byte>, text: seq<byte>): (mac: seq<byte>)
    ensures |mac| == 32
  {
    Sha256(PaddedKey(key, 0x5C) + Sha256(PaddedKey(key, 0x36) + text))
  }

  function Xored(a: seq<byte>, b: seq<byte>): (x: seq<byte>)
    requires |a| == |b|
    ensures |x| == |a|
  {
    seq(|a|, i requires 0 <= i < |a| => a[i] ^ b[i])
  }

  /** Section 2 of RFC 2104, in its own words: the key is brought to 64 bytes with zeros; the text goes
      behind it combined with the byte 0x36, the digest of that behind it combined with 0x5C. */
  lemma HmacIsRfc2104(key: seq<byte>, text: seq<byte>)
    requires |key| <= 64
    ensures var k := key + seq(64 - |key|, _ => 0);
            var inner, outer := Xored(k, seq(64, _ => 0x36)), Xored(k, seq(64, _ => 0x5C));
            Hmac(key, text) == Sha256(outer + Sha256(inner + text))
  {
    hide Sha256;
    var k := key + seq(64 - |key|, _ => 0);
    assert PaddedKey(key, 0x36) == Xored(k, seq(64, _ => 0x36));
    assert PaddedKey(key, 0x5C) == Xored(k, seq(64, _ => 0x5C));
  }

  /** Stores the key in a zeroed block and combines every byte with `pad`. */
  method XorPad(key: array<byte>, keyLen: uint32, pad: byte) returns (k: array<byte>)
    requires keyLen <= key.Length && keyLen <= 64
    ensures fresh(k) && k[..] == PaddedKey(key[..keyLen], pad)
  {
    k := new byte[64](_ => 0);
    Memcpy(k, 0, key, 0, keyLen);
    ghost var filled := k[..];
    for i := 0 to 64
      invariant forall j :: 0 <= j < i ==> k[j] == filled[j] ^ pad
      invariant forall j :: i <= j < 64 ==> k[j] == filled[j]
    {
      k[i] := k[i] ^ pad;
    }
    PaddedKeyIs(key[..keyLen], pad, filled, k[..]);
  }

  lemma PaddedKeyIs(key: seq<byte>, pad: byte, filled: seq<byte>, k: seq<byte>)
    requires |key| <= 64 && filled == key + seq(64, _ => 0)[|key|..]
    requires |k| == 64 && forall j :: 0 <= j < 64 ==> k[j] == filled[j] ^ pad
    ensures k == PaddedKey(key, pad)
  {
  }

  /** One of the two passes: a fresh context absorbs a pad block, then `len` bytes of `data`. */
  method KeyedPass(pad: array<byte>, data: array<byte>, len: uint32, output: array<byte>)
    requires pad.Length == 64 && len <= data.Length && output.Length >= 32
    modifies output
    ensures output[..] == Sha256(old(pad[..]) + old(data[..len])) + old(output[32..])
  {
    hide Sha256, Context.Valid;
    var context := new Context.Init();
    context.Starts();
    context.Update(pad, 64);
    context.Update(data, len);
    assert context.absorbed == pad[..] + data[..len];
    context.Finish(output);
  }

  /** The inner digest is written to `output`, read back as outer input and overwritten; `msg`
      or `key` may even be the output buffer itself. */
  method HmacSha256(msg: array?<byte>, msgLen: uint32, key: array?<byte>, keyLen: uint32, output: array?<byte>)
    requires msg != null ==> msgLen <= msg.Length
    requires key != null ==> keyLen <= key.Length
    requires output != null ==> output.Length >= 32
    modifies if output == null then {} else {output}
    ensures output != null && (msg == null || key == null || keyLen > 64) ==> output[..] == old(output[..])
    ensures msg != null && key != null && output != null && keyLen <= 64 ==>
              output[..] == Hmac(old(key[..keyLen]), old(msg[..msgLen])) + old(output[32..])
  {
    hide Sha256, PaddedKey;
    if msg == null || key == null || output == null {
      return;
    }
    if keyLen > 64 {
      return;
    }
    var ipad := XorPad(key, keyLen, 0x36);
    var opad := XorPad(key, keyLen, 0x5C);
    KeyedPass(ipad, msg, msgLen, output);
    KeyedPass(opad, output, 32, output);
  }
}
