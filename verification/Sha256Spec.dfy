/** SHA-256 as section 6.2 of FIPS 180-4 defines it, independently of the streaming code. */
module Sha256Spec {
  import opened BlockHash

  datatype Regs = Regs(a: bv32, b: bv32, c: bv32, d: bv32, e: bv32, f: bv32, g: bv32, h: bv32)

  const IV := Regs(0x6A09E667, 0xBB67AE85, 0x3C6EF372, 0xA54FF53A, 0x510E527F, 0x9B05688C, 0x1F83D9AB, 0x5BE0CD19)

  /** Section 4.2.2: the constant of round `t`. */
  function K(t: nat): bv32
    requires t < 64
  {
    AsWord(Num(t))
  }

  function AsWord(n: uint32): bv32 {
    n as bv32
  }

  /** The same as a number, four entries a row. */
  function Num(t: nat): uint32
    requires t < 64
  {
    if t < 4 then Pick(t % 4, 0x428A2F98, 0x71374491, 0xB5C0FBCF, 0xE9B5DBA5)
    else if t < 8 then Pick(t % 4, 0x3956C25B, 0x59F111F1, 0x923F82A4, 0xAB1C5ED5)
    else if t < 12 then Pick(t % 4, 0xD807AA98, 0x12835B01, 0x243185BE, 0x550C7DC3)
    else if t < 16 then Pick(t % 4, 0x72BE5D74, 0x80DEB1FE, 0x9BDC06A7, 0xC19BF174)
    else if t < 20 then Pick(t % 4, 0xE49B69C1, 0xEFBE4786, 0x0FC19DC6, 0x240CA1CC)
    else if t < 24 then Pick(t % 4, 0x2DE92C6F, 0x4A7484AA, 0x5CB0A9DC, 0x76F988DA)
    else if t < 28 then Pick(t % 4, 0x983E5152, 0xA831C66D, 0xB00327C8, 0xBF597FC7)
    else if t < 32 then Pick(t % 4, 0xC6E00BF3, 0xD5A79147, 0x06CA6351, 0x14292967)
    else if t < 36 then Pick(t % 4, 0x27B70A85, 0x2E1B2138, 0x4D2C6DFC, 0x53380D13)
    else if t < 40 then Pick(t % 4, 0x650A7354, 0x766A0ABB, 0x81C2C92E, 0x92722C85)
    else if t < 44 then Pick(t % 4, 0xA2BFE8A1, 0xA81A664B, 0xC24B8B70, 0xC76C51A3)
    else if t < 48 then Pick(t % 4, 0xD192E819, 0xD6990624, 0xF40E3585, 0x106AA070)
    else if t < 52 then Pick(t % 4, 0x19A4C116, 0x1E376C08, 0x2748774C, 0x34B0BCB5)
    else if t < 56 then Pick(t % 4, 0x391C0CB3, 0x4ED8AA4A, 0x5B9CCA4F, 0x682E6FF3)
    else if t < 60 then Pick(t % 4, 0x748F82EE, 0x78A5636F, 0x84C87814, 0x8CC70208)
    else Pick(t % 4, 0x90BEFFFA, 0xA4506CEB, 0xBEF9A3F7, 0xC67178F2)
  }

  /** Addition modulo 2^32. */
  function Plus(x: bv32, y: bv32): bv32 { x + y }

  // Section 4.1.2: the six logical functions.
  function Ch(x: bv32, y: bv32, z: bv32): bv32 { (x & y) ^ (!x & z) }
  function Maj(x: bv32, y: bv32, z: bv32): bv32 { (x & y) ^ (x & z) ^ (y & z) }
  function BigSigma0(x: bv32): bv32 { x.RotateRight(2) ^ x.RotateRight(13) ^ x.RotateRight(22) }
  function BigSigma1(x: bv32): bv32 { x.RotateRight(6) ^ x.RotateRight(11) ^ x.RotateRight(25) }
  function SmallSigma0(x: bv32): bv32 { x.RotateRight(7) ^ x.RotateRight(18) ^ (x >> 3) }
  function SmallSigma1(x: bv32): bv32 { x.RotateRight(17) ^ x.RotateRight(19) ^ (x >> 10) }

  /** The big-endian word at offset `i`. */
  function WordBE(s: seq<byte>, i: nat): bv32
    requires i + 4 <= |s|
  {
    ((s[i] as bv32) << 24) | ((s[i + 1] as bv32) << 16) | ((s[i + 2] as bv32) << 8) | (s[i + 3] as bv32)
  }

  /** Word `t` of the message schedule of block `m`. */
  function Schedule(m: Block, t: nat): bv32
    requires t < 64
  {
    if t < 16 then WordBE(m, 4 * t)
    else Plus(Plus(Plus(SmallSigma1(Schedule(m, t - 2)), Schedule(m, t - 7)), SmallSigma0(Schedule(m, t - 15))),
              Schedule(m, t - 16))
  }

  function Round(r: Regs, k: bv32, w: bv32): Regs {
    var t1 := Plus(Plus(Plus(Plus(r.h, BigSigma1(r.e)), Ch(r.e, r.f, r.g)), k), w);
    var t2 := Plus(BigSigma0(r.a), Maj(r.a, r.b, r.c));
    Regs(Plus(t1, t2), r.a, r.b, r.c, Plus(r.d, t1), r.e, r.f, r.g)
  }

  /** The working variables after the first `t` rounds. */
  function Rounds(m: Block, r: Regs, t: nat): Regs
    requires t <= 64
  {
    if t == 0 then r else Round(Rounds(m, r, t - 1), K(t - 1), Schedule(m, t - 1))
  }

  function AddRegs(x: Regs, y: Regs): Regs {
    Regs(Plus(x.a, y.a), Plus(x.b, y.b), Plus(x.c, y.c), Plus(x.d, y.d),
         Plus(x.e, y.e), Plus(x.f, y.f), Plus(x.g, y.g), Plus(x.h, y.h))
  }

  function Compress(h: Regs, m: Block): Regs {
    AddRegs(h, Rounds(m, h, 64))
  }

  function BytesBE(w: bv32): seq<byte> {
    [(w >> 24) as byte, ((w >> 16) & 0xFF) as byte, ((w >> 8) & 0xFF) as byte, (w & 0xFF) as byte]
  }

  function DigestBytes(r: Regs): (d: seq<byte>)
    ensures |d| == 32
  {
    BytesBE(r.a) + BytesBE(r.b) + BytesBE(r.c) + BytesBE(r.d) + BytesBE(r.e) + BytesBE(r.f) + BytesBE(r.g)
    + BytesBE(r.h)
  }

  /** The 64-bit big-endian bit length that closes the padding (section 5.1.1). */
  function LengthField(n: nat): (l: seq<byte>)
    ensures |l| == 8
  {
    seq(8, i requires 0 <= i < 8 => ByteAt(8 * n, 7 - i))
  }

  function Pad(message: seq<byte>): (padded: seq<byte>)
    ensures |padded| % 64 == 0
  {
    PadBitsMinimal(|message|, 0);
    message + PadBits(|message|) + LengthField(|message|)
  }

  function Sha256(message: seq<byte>): (digest: seq<byte>)
    ensures |digest| == 32
  {
    DigestBytes(Fold(Compress, IV, Pad(message)))
  }
}
