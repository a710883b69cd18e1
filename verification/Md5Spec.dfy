/** MD5 as RFC 1321 defines it, independently of the streaming code. */
module Md5Spec {
  import opened BlockHash
  import opened ByteCasts

  datatype Regs = Regs(a: bv32, b: bv32, c: bv32, d: bv32)

  const IV := Regs(0x67452301, 0xEFCDAB89, 0x98BADCFE, 0x10325476)

  /** Addition modulo 2^32. */
  function Plus(x: bv32, y: bv32): bv32 { x + y }

  /** Circular left shift (section 2 of RFC 1321). */
  function RotL(x: bv32, s: nat): bv32
    requires s <= 32
  {
    (x << s) | (x >> (32 - s))
  }

  // The four auxiliary functions of section 3.4.
  function F(x: bv32, y: bv32, z: bv32): bv32 { (x & y) | (!x & z) }
  function G(x: bv32, y: bv32, z: bv32): bv32 { (x & z) | (y & !z) }
  function H(x: bv32, y: bv32, z: bv32): bv32 { x ^ y ^ z }
  function I(x: bv32, y: bv32, z: bv32): bv32 { y ^ (x | !z) }

  function Mix(i: nat, x: bv32, y: bv32, z: bv32): bv32 {
    if i < 16 then F(x, y, z) else if i < 32 then G(x, y, z) else if i < 48 then H(x, y, z) else I(x, y, z)
  }

  /** Which of the sixteen words step `i` (counted from 0) reads. */
  function WordIndex(i: nat): (k: nat)
    ensures k < 16
  {
    if i < 16 then i % 16 else if i < 32 then (1 + 5 * i) % 16 else if i < 48 then (5 + 3 * i) % 16 else (7 * i) % 16
  }

  /** The rotation of step `i`: four amounts per round, used in turn. */
  function Shift(i: nat): (s: nat)
    ensures s < 32
  {
    if i < 16 then Pick(i % 4, 7, 12, 17, 22)
    else if i < 32 then Pick(i % 4, 5, 9, 14, 20)
    else if i < 48 then Pick(i % 4, 4, 11, 16, 23)
    else Pick(i % 4, 6, 10, 15, 21)
  }

  function AsWord(n: uint32): bv32 {
    n as bv32
  }

  /** The table constructed from the sine function, `i` counted from 0, four entries a row. */
  function T(i: nat): uint32
    requires i < 64
  {
    if i < 4 then Pick(i % 4, 0xD76AA478, 0xE8C7B756, 0x242070DB, 0xC1BDCEEE)
    else if i < 8 then Pick(i % 4, 0xF57C0FAF, 0x4787C62A, 0xA8304613, 0xFD469501)
    else if i < 12 then Pick(i % 4, 0x698098D8, 0x8B44F7AF, 0xFFFF5BB1, 0x895CD7BE)
    else if i < 16 then Pick(i % 4, 0x6B901122, 0xFD987193, 0xA679438E, 0x49B40821)
    else if i < 20 then Pick(i % 4, 0xF61E2562, 0xC040B340, 0x265E5A51, 0xE9B6C7AA)
    else if i < 24 then Pick(i % 4, 0xD62F105D, 0x02441453, 0xD8A1E681, 0xE7D3FBC8)
    else if i < 28 then Pick(i % 4, 0x21E1CDE6, 0xC33707D6, 0xF4D50D87, 0x455A14ED)
    else if i < 32 then Pick(i % 4, 0xA9E3E905, 0xFCEFA3F8, 0x676F02D9, 0x8D2A4C8A)
    else if i < 36 then Pick(i % 4, 0xFFFA3942, 0x8771F681, 0x6D9D6122, 0xFDE5380C)
    else if i < 40 then Pick(i % 4, 0xA4BEEA44, 0x4BDECFA9, 0xF6BB4B60, 0xBEBFBC70)
    else if i < 44 then Pick(i % 4, 0x289B7EC6, 0xEAA127FA, 0xD4EF3085, 0x04881D05)
    else if i < 48 then Pick(i % 4, 0xD9D4D039, 0xE6DB99E5, 0x1FA27CF8, 0xC4AC5665)
    else if i < 52 then Pick(i % 4, 0xF4292244, 0x432AFF97, 0xAB9423A7, 0xFC93A039)
    else if i < 56 then Pick(i % 4, 0x655B59C3, 0x8F0CCC92, 0xFFEFF47D, 0x85845DD1)
    else if i < 60 then Pick(i % 4, 0x6FA87E4F, 0xFE2CE6E0, 0xA3014314, 0x4E0811A1)
    else Pick(i % 4, 0xF7537E82, 0xBD3AF235, 0x2AD7D2BB, 0xEB86D391)
  }

  /** The little-endian word at offset `i`. */
  function WordLE(s: seq<byte>, i: nat): bv32
    requires i + 4 <= |s|
  {
    (s[i] as bv32) | ((s[i + 1] as bv32) << 8) | ((s[i + 2] as bv32) << 16) | ((s[i + 3] as bv32) << 24)
  }

  /** Word `k` of the block. */
  function Word(m: Block, k: nat): bv32
    requires k < 16
  {
    WordLE(m, 4 * k)
  }

  /** Step `i`: the new value goes into the first register, and the four registers change roles. */
  function Step(m: Block, i: nat, r: Regs): Regs
    requires i < 64
  {
    var sum := Plus(r.a, Plus(Plus(Mix(i, r.b, r.c, r.d), Word(m, WordIndex(i))), AsWord(T(i))));
    Regs(r.d, Plus(r.b, RotL(sum, Shift(i))), r.b, r.c)
  }

  function Steps(m: Block, r: Regs, t: nat): Regs
    requires t <= 64
  {
    if t == 0 then r else Step(m, t - 1, Steps(m, r, t - 1))
  }

  function Compress(r: Regs, m: Block): Regs {
    var s := Steps(m, r, 64);
    Regs(Plus(r.a, s.a), Plus(r.b, s.b), Plus(r.c, s.c), Plus(r.d, s.d))
  }

  function BytesLE(w: bv32): seq<byte> {
    [(w & 0xFF) as byte, ((w >> 8) & 0xFF) as byte, ((w >> 16) & 0xFF) as byte, ((w >> 24) & 0xFF) as byte]
  }

  function DigestBytes(r: Regs): (d: seq<byte>)
    ensures |d| == 16
  {
    BytesLE(r.a) + BytesLE(r.b) + BytesLE(r.c) + BytesLE(r.d)
  }

  /** A 64-bit little-endian bit length for `n` bytes, of which only the low 64 bits are kept. */
  function LengthField(n: nat): (l: seq<byte>)
    ensures |l| == 8
  {
    seq(8, i requires 0 <= i < 8 => ByteAt(8 * n, i))
  }

  /** The padded message when the length field claims `count` bytes. */
  function PadAs(message: seq<byte>, count: nat): (padded: seq<byte>)
    ensures |padded| % 64 == 0
  {
    PadBitsMinimal(|message|, 0);
    message + PadBits(|message|) + LengthField(count)
  }

  /** Sections 3.1 and 3.2: the length field tells the length of the message. */
  function Pad(message: seq<byte>): (padded: seq<byte>)
    ensures |padded| % 64 == 0
  {
    PadAs(message, |message|)
  }

  const TWO_61 := 0x2000_0000_0000_0000

  /** A miscounted length pads the message wrongly, and only that does: the padded form is the
      standard one exactly when the count agrees with the true length modulo 2^61 bytes. */
  lemma PaddingIsStandardExactly(message: seq<byte>, count: nat)
    ensures PadAs(message, count) == Pad(message) <==> count % TWO_61 == |message| % TWO_61
  {
    hide LengthField;
    var n := |message|;
    var head := message + PadBits(n);
    assert PadAs(message, count)[|head|..] == LengthField(count);
    assert Pad(message)[|head|..] == LengthField(n);
    assert PadAs(message, count) == head + LengthField(count);
    assert Pad(message) == head + LengthField(n);
    LengthFieldsAgree(count, n);
  }

  lemma LengthFieldsAgree(a: nat, b: nat)
    ensures LengthField(a) == LengthField(b) <==> a % TWO_61 == b % TWO_61
  {
    hide ByteAt;
    var x, y := LengthField(a), LengthField(b);
    LengthWords(a);
    LengthWords(b);
    WordsTellLength(a, b);
    var la, lb := (8 * a) % TWO_32, (8 * b) % TWO_32;
    var ha, hb := (8 * a) / TWO_32 % TWO_32, (8 * b) / TWO_32 % TWO_32;
    if x == y {
      forall k | 0 <= k < 4 ensures ByteAt(la, k) == ByteAt(lb, k) && ByteAt(ha, k) == ByteAt(hb, k) {
        assert x[k] == y[k] && x[k + 4] == y[k + 4];
      }
      BytesTellWord(la, lb);
      BytesTellWord(ha, hb);
    }
    if la == lb && ha == hb {
      forall k | 0 <= k < 8 ensures x[k] == y[k] {
        if k >= 4 {
          var j := k - 4;
          assert ByteAt(ha, j) == ByteAt(8 * a, j + 4);
          assert ByteAt(hb, j) == ByteAt(8 * b, j + 4);
        } else {
          assert ByteAt(la, k) == ByteAt(8 * a, k);
          assert ByteAt(lb, k) == ByteAt(8 * b, k);
        }
      }
    }
  }

  lemma WordsTellLength(a: nat, b: nat)
    ensures (8 * a) % TWO_32 == (8 * b) % TWO_32 && (8 * a) / TWO_32 % TWO_32 == (8 * b) / TWO_32 % TWO_32 <==>
            a % TWO_61 == b % TWO_61
  {
    WordsOfResidue(a);
    WordsOfResidue(b);
  }

  lemma WordsOfResidue(a: nat)
    ensures 8 * (a % TWO_61) == (8 * a) % TWO_32 + TWO_32 * ((8 * a) / TWO_32 % TWO_32)
    ensures (8 * (a % TWO_61)) % TWO_32 == (8 * a) % TWO_32
  {
    var r, q := a % TWO_61, a / TWO_61;
    assert 8 * a == 8 * r + TWO_32 * (TWO_32 * q);
    var h, l := (8 * r) / TWO_32, (8 * r) % TWO_32;
    DivMod32(8 * a, h + TWO_32 * q, l);
    DivMod32(h + TWO_32 * q, q, h);
  }

  lemma BytesTellWord(v: uint32, w: uint32)
    requires forall k :: 0 <= k < 4 ==> ByteAt(v, k) == ByteAt(w, k)
    ensures v == w
  {
    assert ByteAt(v, 0) == ByteAt(w, 0) && ByteAt(v, 1) == ByteAt(w, 1);
    assert ByteAt(v, 2) == ByteAt(w, 2) && ByteAt(v, 3) == ByteAt(w, 3);
    forall k | 0 <= k < 4 ensures v / Pow256(k) % 256 == w / Pow256(k) % 256 {
      hide Pow256;
      ByteTellsDigit(v / Pow256(k) % 256, w / Pow256(k) % 256);
    }
    FourDigits(v);
    FourDigits(w);
  }

  lemma ByteTellsDigit(x: nat, y: nat)
    requires x < 256 && y < 256 && x as byte == y as byte
    ensures x == y
  {
    ByteKeepsDigit(x);
    ByteKeepsDigit(y);
  }

  lemma FourDigits(v: uint32)
    ensures v == v / Pow256(0) % 256 + 256 * (v / Pow256(1) % 256) + 0x1_0000 * (v / Pow256(2) % 256) +
                 0x100_0000 * (v / Pow256(3) % 256)
  {
    assert v == v % 256 + 256 * (v / 0x100);
    assert v / 0x100 == v / 0x100 % 256 + 256 * (v / 0x1_0000);
    assert v / 0x1_0000 == v / 0x1_0000 % 256 + 256 * (v / 0x100_0000);
    assert v / 0x100_0000 < 256;
  }

  function Md5(message: seq<byte>): (digest: seq<byte>)
    ensures |digest| == 16
  {
    DigestBytes(Fold(Compress, IV, Pad(message)))
  }
}
