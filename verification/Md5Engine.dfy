/** The streaming MD5 engine (utils_md5.c). */
module Md5Engine {
  import opened BlockHash
  import opened Md5Spec

  // The macros of the four rounds, as the source writes them.
  function F1(x: bv32, y: bv32, z: bv32): bv32 { z ^ (x & (y ^ z)) }
  function F2(x: bv32, y: bv32, z: bv32): bv32 { y ^ (z & (x ^ y)) }
  function F3(x: bv32, y: bv32, z: bv32): bv32 { x ^ y ^ z }
  function F4(x: bv32, y: bv32, z: bv32): bv32 { y ^ (x | !z) }

  function S(x: bv32, n: nat): bv32
    requires n < 32
  {
    (x << n) | ((x & 0xFFFF_FFFF) >> (32 - n))
  }

  lemma FirstBits(x: bv32, y: bv32, z: bv32)
    ensures z ^ (x & (y ^ z)) == (x & y) | (!x & z)
  {
  }

  lemma SecondBits(x: bv32, y: bv32, z: bv32)
    ensures y ^ (z & (x ^ y)) == (x & z) | (y & !z)
  {
  }

  /** The rewritten round macros compute the auxiliary functions of section 3.4. */
  lemma MacrosAreTheStandard(x: bv32, y: bv32, z: bv32)
    ensures F1(x, y, z) == F(x, y, z) && F2(x, y, z) == G(x, y, z)
    ensures F3(x, y, z) == H(x, y, z) && F4(x, y, z) == I(x, y, z)
  {
    hide F, G, H, I, F1, F2, F3, F4;
    FirstMacro(x, y, z);
    SecondMacro(x, y, z);
    ThirdMacro(x, y, z);
    FourthMacro(x, y, z);
  }

  lemma FirstMacro(x: bv32, y: bv32, z: bv32)
    ensures F1(x, y, z) == F(x, y, z)
  {
    FirstBits(x, y, z);
  }

  lemma SecondMacro(x: bv32, y: bv32, z: bv32)
    ensures F2(x, y, z) == G(x, y, z)
  {
    SecondBits(x, y, z);
  }

  lemma ThirdMacro(x: bv32, y: bv32, z: bv32)
    ensures F3(x, y, z) == H(x, y, z)
  {
  }

  lemma FourthMacro(x: bv32, y: bv32, z: bv32)
    ensures F4(x, y, z) == I(x, y, z)
  {
  }

  lemma ShiftIsRotation(x: bv32, n: nat)
    requires n < 32
    ensures S(x, n) == RotL(x, n)
  {
    assert x & 0xFFFF_FFFF == x;
  }

  /** The macro that is in force when step `i` is expanded. */
  function Macro(i: nat, x: bv32, y: bv32, z: bv32): bv32 {
    if i < 16 then F1(x, y, z) else if i < 32 then F2(x, y, z) else if i < 48 then F3(x, y, z) else F4(x, y, z)
  }

  lemma Commutes(x: bv32, y: bv32)
    ensures Plus(x, y) == Plus(y, x)
  {
  }

  /** The array holds the sixteen words of the block. */
  ghost predicate Holds(x: array<bv32>, m: Block)
    requires x.Length == 16
    reads x
  {
    forall k :: 0 <= k < 16 ==> x[k] == Word(m, k)
  }

  /** After the first `t` steps on block `m`, the registers hold `a`, `b`, `c`, `d`. */
  ghost predicate Reached(m: Block, r: Regs, t: nat, a: bv32, b: bv32, c: bv32, d: bv32) {
    t <= 64 && Steps(m, r, t) == Regs(a, b, c, d)
  }

  /** The step macro, expanded as step `i`: of the four registers it rewrites only `a`. */
  method P(ghost m: Block, ghost r: Regs, ghost i: nat, a: bv32, b: bv32, c: bv32, d: bv32, f: bv32,
           x: array<bv32>, k: nat, s: nat, t: uint32)
    returns (a': bv32)
    requires x.Length == 16 && Holds(x, m)
    requires i < 64 && k == WordIndex(i) && s == Shift(i) && t == T(i)
    requires f == Macro(i, b, c, d)
    requires Reached(m, r, i, a, b, c, d)
    ensures Reached(m, r, i + 1, d, a', b, c)
  {
    hide Plus, RotL, Word, T, AsWord, S, F, G, H, I, F1, F2, F3, F4;
    MacrosAreTheStandard(b, c, d);
    a' := Plus(a, Plus(Plus(f, x[k]), AsWord(t)));
    ShiftIsRotation(a', s);
    Commutes(S(a', s), b);
    a' := Plus(S(a', s), b);
  }

  /** Round 1 of the compression function: its sixteen unrolled steps, in two halves. */
  method Round1(ghost m: Block, x: array<bv32>, ghost r: Regs, a0: bv32, b0: bv32, c0: bv32, d0: bv32)
    returns (a: bv32, b: bv32, c: bv32, d: bv32)
    requires x.Length == 16 && Holds(x, m)
    requires Reached(m, r, 0, a0, b0, c0, d0)
    ensures Reached(m, r, 16, a, b, c, d)
  {
    hide Holds, Reached;
    a, b, c, d := Round1Begins(m, x, r, a0, b0, c0, d0);
    a, b, c, d := Round1Ends(m, x, r, a, b, c, d);
  }

  method Round1Begins(ghost m: Block, x: array<bv32>, ghost r: Regs, a0: bv32, b0: bv32, c0: bv32, d0: bv32)
    returns (a: bv32, b: bv32, c: bv32, d: bv32)
    requires x.Length == 16 && Holds(x, m)
    requires Reached(m, r, 0, a0, b0, c0, d0)
    ensures Reached(m, r, 8, a, b, c, d)
  {
    hide Holds, F1, F2, F3, F4, Reached;
    a, b, c, d := a0, b0, c0, d0;
    a := P(m, r, 0, a, b, c, d, F1(b, c, d), x, 0, 7, 0xD76AA478);
    d := P(m, r, 1, d, a, b, c, F1(a, b, c), x, 1, 12, 0xE8C7B756);
    c := P(m, r, 2, c, d, a, b, F1(d, a, b), x, 2, 17, 0x242070DB);
    b := P(m, r, 3, b, c, d, a, F1(c, d, a), x, 3, 22, 0xC1BDCEEE);
    a := P(m, r, 4, a, b, c, d, F1(b, c, d), x, 4, 7, 0xF57C0FAF);
    d := P(m, r, 5, d, a, b, c, F1(a, b, c), x, 5, 12, 0x4787C62A);
    c := P(m, r, 6, c, d, a, b, F1(d, a, b), x, 6, 17, 0xA8304613);
    b := P(m, r, 7, b, c, d, a, F1(c, d, a), x, 7, 22, 0xFD469501);
  }

  method Round1Ends(ghost m: Block, x: array<bv32>, ghost r: Regs, a0: bv32, b0: bv32, c0: bv32, d0: bv32)
    returns (a: bv32, b: bv32, c: bv32, d: bv32)
    requires x.Length == 16 && Holds(x, m)
    requires Reached(m, r, 8, a0, b0, c0, d0)
    ensures Reached(m, r, 16, a, b, c, d)
  {
    hide Holds, F1, F2, F3, F4, Reached;
    a, b, c, d := a0, b0, c0, d0;
    a := P(m, r, 8, a, b, c, d, F1(b, c, d), x, 8, 7, 0x698098D8);
    d := P(m, r, 9, d, a, b, c, F1(a, b, c), x, 9, 12, 0x8B44F7AF);
    c := P(m, r, 10, c, d, a, b, F1(d, a, b), x, 10, 17, 0xFFFF5BB1);
    b := P(m, r, 11, b, c, d, a, F1(c, d, a), x, 11, 22, 0x895CD7BE);
    a := P(m, r, 12, a, b, c, d, F1(b, c, d), x, 12, 7, 0x6B901122);
    d := P(m, r, 13, d, a, b, c, F1(a, b, c), x, 13, 12, 0xFD987193);
    c := P(m, r, 14, c, d, a, b, F1(d, a, b), x, 14, 17, 0xA679438E);
    b := P(m, r, 15, b, c, d, a, F1(c, d, a), x, 15, 22, 0x49B40821);
  }

  /** Round 2 of the compression function: its sixteen unrolled steps, in two halves. */
  method Round2(ghost m: Block, x: array<bv32>, ghost r: Regs, a0: bv32, b0: bv32, c0: bv32, d0: bv32)
    returns (a: bv32, b: bv32, c: bv32, d: bv32)
    requires x.Length == 16 && Holds(x, m)
    requires Reached(m, r, 16, a0, b0, c0, d0)
    ensures Reached(m, r, 32, a, b, c, d)
  {
    hide Holds, Reached;
    a, b, c, d := Round2Begins(m, x, r, a0, b0, c0, d0);
    a, b, c, d := Round2Ends(m, x, r, a, b, c, d);
  }

  method Round2Begins(ghost m: Block, x: array<bv32>, ghost r: Regs, a0: bv32, b0: bv32, c0: bv32, d0: bv32)
    returns (a: bv32, b: bv32, c: bv32, d: bv32)
    requires x.Length == 16 && Holds(x, m)
    requires Reached(m, r, 16, a0, b0, c0, d0)
    ensures Reached(m, r, 24, a, b, c, d)
  {
    hide Holds, F1, F2, F3, F4, Reached;
    a, b, c, d := a0, b0, c0, d0;
    a := P(m, r, 16, a, b, c, d, F2(b, c, d), x, 1, 5, 0xF61E2562);
    d := P(m, r, 17, d, a, b, c, F2(a, b, c), x, 6, 9, 0xC040B340);
    c := P(m, r, 18, c, d, a, b, F2(d, a, b), x, 11, 14, 0x265E5A51);
    b := P(m, r, 19, b, c, d, a, F2(c, d, a), x, 0, 20, 0xE9B6C7AA);
    a := P(m, r, 20, a, b, c, d, F2(b, c, d), x, 5, 5, 0xD62F105D);
    d := P(m, r, 21, d, a, b, c, F2(a, b, c), x, 10, 9, 0x02441453);
    c := P(m, r, 22, c, d, a, b, F2(d, a, b), x, 15, 14, 0xD8A1E681);
    b := P(m, r, 23, b, c, d, a, F2(c, d, a), x, 4, 20, 0xE7D3FBC8);
  }

  method Round2Ends(ghost m: Block, x: array<bv32>, ghost r: Regs, a0: bv32, b0: bv32, c0: bv32, d0: bv32)
    returns (a: bv32, b: bv32, c: bv32, d: bv32)
    requires x.Length == 16 && Holds(x, m)
    requires Reached(m, r, 24, a0, b0, c0, d0)
    ensures Reached(m, r, 32, a, b, c, d)
  {
    hide Holds, F1, F2, F3, F4, Reached;
    a, b, c, d := a0, b0, c0, d0;
    a := P(m, r, 24, a, b, c, d, F2(b, c, d), x, 9, 5, 0x21E1CDE6);
    d := P(m, r, 25, d, a, b, c, F2(a, b, c), x, 14, 9, 0xC33707D6);
    c := P(m, r, 26, c, d, a, b, F2(d, a, b), x, 3, 14, 0xF4D50D87);
    b := P(m, r, 27, b, c, d, a, F2(c, d, a), x, 8, 20, 0x455A14ED);
    a := P(m, r, 28, a, b, c, d, F2(b, c, d), x, 13, 5, 0xA9E3E905);
    d := P(m, r, 29, d, a, b, c, F2(a, b, c), x, 2, 9, 0xFCEFA3F8);
    c := P(m, r, 30, c, d, a, b, F2(d, a, b), x, 7, 14, 0x676F02D9);
    b := P(m, r, 31, b, c, d, a, F2(c, d, a), x, 12, 20, 0x8D2A4C8A);
  }

  /** Round 3 of the compression function: its sixteen unrolled steps, in two halves. */
  method Round3(ghost m: Block, x: array<bv32>, ghost r: Regs, a0: bv32, b0: bv32, c0: bv32, d0: bv32)
    returns (a: bv32, b: bv32, c: bv32, d: bv32)
    requires x.Length == 16 && Holds(x, m)
    requires Reached(m, r, 32, a0, b0, c0, d0)
    ensures Reached(m, r, 48, a, b, c, d)
  {
    hide Holds, Reached;
    a, b, c, d := Round3Begins(m, x, r, a0, b0, c0, d0);
    a, b, c, d := Round3Ends(m, x, r, a, b, c, d);
  }

  method Round3Begins(ghost m: Block, x: array<bv32>, ghost r: Regs, a0: bv32, b0: bv32, c0: bv32, d0: bv32)
    returns (a: bv32, b: bv32, c: bv32, d: bv32)
    requires x.Length == 16 && Holds(x, m)
    requires Reached(m, r, 32, a0, b0, c0, d0)
    ensures Reached(m, r, 40, a, b, c, d)
  {
    hide Holds, F1, F2, F3, F4, Reached;
    a, b, c, d := a0, b0, c0, d0;
    a := P(m, r, 32, a, b, c, d, F3(b, c, d), x, 5, 4, 0xFFFA3942);
    d := P(m, r, 33, d, a, b, c, F3(a, b, c), x, 8, 11, 0x8771F681);
    c := P(m, r, 34, c, d, a, b, F3(d, a, b), x, 11, 16, 0x6D9D6122);
    b := P(m, r, 35, b, c, d, a, F3(c, d, a), x, 14, 23, 0xFDE5380C);
    a := P(m, r, 36, a, b, c, d, F3(b, c, d), x, 1, 4, 0xA4BEEA44);
    d := P(m, r, 37, d, a, b, c, F3(a, b, c), x, 4, 11, 0x4BDECFA9);
    c := P(m, r, 38, c, d, a, b, F3(d, a, b), x, 7, 16, 0xF6BB4B60);
    b := P(m, r, 39, b, c, d, a, F3(c, d, a), x, 10, 23, 0xBEBFBC70);
  }

  method Round3Ends(ghost m: Block, x: array<bv32>, ghost r: Regs, a0: bv32, b0: bv32, c0: bv32, d0: bv32)
    returns (a: bv32, b: bv32, c: bv32, d: bv32)
    requires x.Length == 16 && Holds(x, m)
    requires Reached(m, r, 40, a0, b0, c0, d0)
    ensures Reached(m, r, 48, a, b, c, d)
  {
    hide Holds, F1, F2, F3, F4, Reached;
    a, b, c, d := a0, b0, c0, d0;
    a := P(m, r, 40, a, b, c, d, F3(b, c, d), x, 13, 4, 0x289B7EC6);
    d := P(m, r, 41, d, a, b, c, F3(a, b, c), x, 0, 11, 0xEAA127FA);
    c := P(m, r, 42, c, d, a, b, F3(d, a, b), x, 3, 16, 0xD4EF3085);
    b := P(m, r, 43, b, c, d, a, F3(c, d, a), x, 6, 23, 0x04881D05);
    a := P(m, r, 44, a, b, c, d, F3(b, c, d), x, 9, 4, 0xD9D4D039);
    d := P(m, r, 45, d, a, b, c, F3(a, b, c), x, 12, 11, 0xE6DB99E5);
    c := P(m, r, 46, c, d, a, b, F3(d, a, b), x, 15, 16, 0x1FA27CF8);
    b := P(m, r, 47, b, c, d, a, F3(c, d, a), x, 2, 23, 0xC4AC5665);
  }

  /** Round 4 of the compression function: its sixteen unrolled steps, in two halves. */
  method Round4(ghost m: Block, x: array<bv32>, ghost r: Regs, a0: bv32, b0: bv32, c0: bv32, d0: bv32)
    returns (a: bv32, b: bv32, c: bv32, d: bv32)
    requires x.Length == 16 && Holds(x, m)
    requires Reached(m, r, 48, a0, b0, c0, d0)
    ensures Reached(m, r, 64, a, b, c, d)
  {
    hide Holds, Reached;
    a, b, c, d := Round4Begins(m, x, r, a0, b0, c0, d0);
    a, b, c, d := Round4Ends(m, x, r, a, b, c, d);
  }

  method Round4Begins(ghost m: Block, x: array<bv32>, ghost r: Regs, a0: bv32, b0: bv32, c0: bv32, d0: bv32)
    returns (a: bv32, b: bv32, c: bv32, d: bv32)
    requires x.Length == 16 && Holds(x, m)
    requires Reached(m, r, 48, a0, b0, c0, d0)
    ensures Reached(m, r, 56, a, b, c, d)
  {
    hide Holds, F1, F2, F3, F4, Reached;
    a, b, c, d := a0, b0, c0, d0;
    a := P(m, r, 48, a, b, c, d, F4(b, c, d), x, 0, 6, 0xF4292244);
    d := P(m, r, 49, d, a, b, c, F4(a, b, c), x, 7, 10, 0x432AFF97);
    c := P(m, r, 50, c, d, a, b, F4(d, a, b), x, 14, 15, 0xAB9423A7);
    b := P(m, r, 51, b, c, d, a, F4(c, d, a), x, 5, 21, 0xFC93A039);
    a := P(m, r, 52, a, b, c, d, F4(b, c, d), x, 12, 6, 0x655B59C3);
    d := P(m, r, 53, d, a, b, c, F4(a, b, c), x, 3, 10, 0x8F0CCC92);
    c := P(m, r, 54, c, d, a, b, F4(d, a, b), x, 10, 15, 0xFFEFF47D);
    b := P(m, r, 55, b, c, d, a, F4(c, d, a), x, 1, 21, 0x85845DD1);
  }

  method Round4Ends(ghost m: Block, x: array<bv32>, ghost r: Regs, a0: bv32, b0: bv32, c0: bv32, d0: bv32)
    returns (a: bv32, b: bv32, c: bv32, d: bv32)
    requires x.Length == 16 && Holds(x, m)
    requires Reached(m, r, 56, a0, b0, c0, d0)
    ensures Reached(m, r, 64, a, b, c, d)
  {
    hide Holds, F1, F2, F3, F4, Reached;
    a, b, c, d := a0, b0, c0, d0;
    a := P(m, r, 56, a, b, c, d, F4(b, c, d), x, 8, 6, 0x6FA87E4F);
    d := P(m, r, 57, d, a, b, c, F4(a, b, c), x, 15, 10, 0xFE2CE6E0);
    c := P(m, r, 58, c, d, a, b, F4(d, a, b), x, 6, 15, 0xA3014314);
    b := P(m, r, 59, b, c, d, a, F4(c, d, a), x, 13, 21, 0x4E0811A1);
    a := P(m, r, 60, a, b, c, d, F4(b, c, d), x, 4, 6, 0xF7537E82);
    d := P(m, r, 61, d, a, b, c, F4(a, b, c), x, 11, 10, 0xBD3AF235);
    c := P(m, r, 62, c, d, a, b, F4(d, a, b), x, 2, 15, 0x2AD7D2BB);
    b := P(m, r, 63, b, c, d, a, F4(c, d, a), x, 9, 21, 0xEB86D391);
  }

  function RegsOf(s: seq<bv32>): Regs
    requires |s| == 4
  {
    Regs(s[0], s[1], s[2], s[3])
  }

  method GetUint32LE(b: array<byte>, i: nat) returns (n: bv32)
    requires i + 4 <= b.Length
    ensures n == WordLE(b[..], i)
  {
    n := (b[i] as bv32) | ((b[i + 1] as bv32) << 8) | ((b[i + 2] as bv32) << 16) | ((b[i + 3] as bv32) << 24);
  }

  method PutUint32LE(n: bv32, b: array<byte>, i: nat)
    requires i + 4 <= b.Length
    modifies b
    ensures b[..i + 4] == old(b[..i]) + BytesLE(n)
    ensures forall k :: i + 4 <= k < b.Length ==> b[k] == old(b[k])
  {
    b[i] := (n & 0xFF) as byte;
    b[i + 1] := ((n >> 8) & 0xFF) as byte;
    b[i + 2] := ((n >> 16) & 0xFF) as byte;
    b[i + 3] := ((n >> 24) & 0xFF) as byte;
  }

  /** The same store for a counter word, which this model keeps as an integer. */
  method PutCounterLE(n: uint32, b: array<byte>, i: nat)
    requires i + 4 <= b.Length
    modifies b
    ensures b[..] == old(b[..i]) + [ByteAt(n, 0), ByteAt(n, 1), ByteAt(n, 2), ByteAt(n, 3)] + old(b[i + 4..])
  {
    b[i] := ByteAt(n, 0);
    b[i + 1] := ByteAt(n, 1);
    b[i + 2] := ByteAt(n, 2);
    b[i + 3] := ByteAt(n, 3);
  }

  lemma WordOfSlice(s: seq<byte>, ofs: nat, m: Block, k: nat)
    requires ofs + 64 <= |s| && m == s[ofs..ofs + 64] && k < 16
    ensures WordLE(s, ofs + 4 * k) == Word(m, k)
  {
  }

  /** The sixteen loads at the head of the compression function. */
  method LoadWords(data: array<byte>, ofs: nat, ghost m: Block) returns (x: array<bv32>)
    requires ofs + 64 <= data.Length && m == data[ofs..ofs + 64]
    ensures fresh(x) && x.Length == 16 && Holds(x, m)
  {
    hide Word, WordLE;
    x := new bv32[16];
    for k := 0 to 16
      invariant data[ofs..ofs + 64] == m
      invariant forall j :: 0 <= j < k ==> x[j] == Word(m, j)
    {
      WordOfSlice(data[..], ofs, m, k);
      x[k] := GetUint32LE(data, ofs + 4 * k);
    }
  }

  lemma LengthFieldWords(n: nat, high: uint32, low: uint32)
    requires forall k :: 0 <= k < 4 ==> ByteAt(low, k) == ByteAt(8 * n, k)
    requires forall k :: 0 <= k < 4 ==> ByteAt(high, k) == ByteAt(8 * n, k + 4)
    ensures LengthField(n) == [ByteAt(low, 0), ByteAt(low, 1), ByteAt(low, 2), ByteAt(low, 3)] +
                              [ByteAt(high, 0), ByteAt(high, 1), ByteAt(high, 2), ByteAt(high, 3)]
  {
    hide ByteAt;
    var l := LengthField(n);
    assert l == [l[0], l[1], l[2], l[3]] + [l[4], l[5], l[6], l[7]];
  }

  function Sum(lens: seq<nat>): nat {
    if lens == [] then 0 else Sum(lens[..|lens| - 1]) + lens[|lens| - 1]
  }

  /** The lengths as the counter sees them. */
  function Cut(lens: seq<nat>): (cut: seq<nat>)
    ensures |cut| == |lens|
  {
    if lens == [] then [] else Cut(lens[..|lens| - 1]) + [lens[|lens| - 1] % TWO_32]
  }

  predicate AllShort(lens: seq<nat>) {
    forall i :: 0 <= i < |lens| ==> lens[i] < TWO_32
  }

  lemma SumsExtend(lens: seq<nat>, l: nat)
    ensures Sum(lens + [l]) == Sum(lens) + l && Sum(Cut(lens + [l])) == Sum(Cut(lens)) + l % TWO_32
  {
    var more, cut := lens + [l], Cut(lens) + [l % TWO_32];
    assert more[..|more| - 1] == lens && cut[..|cut| - 1] == Cut(lens);
  }

  /** The counter never runs ahead of what was absorbed, and it tells the truth about a sequence of
      updates if and only if none of them was as long as 2^32 bytes. */
  lemma {:induction false} CountsExactly(lens: seq<nat>)
    ensures Sum(Cut(lens)) <= Sum(lens) && (Sum(Cut(lens)) == Sum(lens) <==> AllShort(lens))
  {
    if lens != [] {
      var n := |lens| - 1;
      CountsExactly(lens[..n]);
      SumsExtend(lens[..n], lens[n]);
      assert lens == lens[..n] + [lens[n]];
      assert lens[n] % TWO_32 <= lens[n] && (lens[n] % TWO_32 == lens[n] <==> lens[n] < TWO_32);
      assert AllShort(lens) <==> AllShort(lens[..n]) && lens[n] < TWO_32;
    }
  }

  ghost predicate Summed(absorbed: seq<byte>, counted: nat, updates: seq<nat>) {
    |absorbed| == Sum(updates) && counted == Sum(Cut(updates))
  }

  class Context {
    var total0: uint32
    var total1: uint32
    const state: array<bv32>
    const buffer: array<byte>
    /** Every byte absorbed since the last `Starts`. */
    ghost var absorbed: seq<byte>
    /** The lengths of the updates since then, and what the counter has been told: each update adds
        only the low 32 bits of its length. */
    ghost var updates: seq<nat>
    ghost var counted: nat

    ghost predicate Shape() {
      state.Length == 4 && buffer.Length == 64
    }

    ghost predicate Valid()
      reads this, state, buffer
    {
      var n := |absorbed|;
      Shape() && Summed(absorbed, counted, updates) &&
      total0 + TWO_32 * total1 == counted % TWO_64 && counted % TWO_32 == n % TWO_32 &&
      RegsOf(state[..]) == Fold(Compress, IV, absorbed[..Whole(n)]) &&
      buffer[..n % 64] == absorbed[Whole(n)..]
    }

    constructor Init()
      ensures Shape() && fresh(state) && fresh(buffer)
    {
      total0, total1, absorbed, counted, updates := 0, 0, [], 0, [];
      state := new bv32[4](_ => 0);
      buffer := new byte[64](_ => 0);
    }

    method Starts()
      requires Shape()
      modifies this, state
      ensures Valid() && absorbed == [] && counted == 0 && updates == []
    {
      total0, total1 := 0, 0;
      state[0], state[1], state[2], state[3] := 0x67452301, 0xEFCDAB89, 0x98BADCFE, 0x10325476;
      absorbed, counted, updates := [], 0, [];
    }

    method Process(data: array<byte>, ofs: nat)
      requires Shape() && ofs + 64 <= data.Length
      modifies state
      ensures RegsOf(state[..]) == Compress(RegsOf(old(state[..])), data[ofs..ofs + 64])
    {
      hide Plus, Steps, Holds;
      ghost var m: Block := data[ofs..ofs + 64];
      ghost var r := RegsOf(state[..]);
      NoSteps(m, r);
      var x := LoadWords(data, ofs, m);
      var a, b, c, d := state[0], state[1], state[2], state[3];
      a, b, c, d := Round1(m, x, r, a, b, c, d);
      a, b, c, d := Round2(m, x, r, a, b, c, d);
      a, b, c, d := Round3(m, x, r, a, b, c, d);
      a, b, c, d := Round4(m, x, r, a, b, c, d);
      state[0] := Plus(state[0], a);
      state[1] := Plus(state[1], b);
      state[2] := Plus(state[2], c);
      state[3] := Plus(state[3], d);
    }

    lemma NoSteps(m: Block, r: Regs)
      ensures Steps(m, r, 0) == r
    {
    }

    /** Midway through an update: of the bytes `all`, the first `done` are consumed, the last
        `left` of them wait in the buffer and the rest is folded into the state. */
    ghost predicate Consumed(all: seq<byte>, done: nat, left: nat)
      reads state, buffer
    {
      Shape() && left < 64 && left <= done <= |all| && (done - left) % 64 == 0 &&
      RegsOf(state[..]) == Fold(Compress, IV, all[..done - left]) &&
      buffer[..left] == all[done - left..done]
    }

    /** Adds `ilen`, already cut to 32 bits, to the 64-bit byte count kept in two words. */
    method Count(ilen: uint32, ghost n: nat)
      requires total0 + TWO_32 * total1 == n % TWO_64
      modifies `total0, `total1
      ensures total0 + TWO_32 * total1 == (n + ilen) % TWO_64
    {
      CounterAdvances(total0, total1, n, ilen);
      total0 := (total0 + ilen) % TWO_32;
      if total0 < ilen {
        total1 := (total1 + 1) % TWO_32;
      }
    }

    /** Completes the buffered block with the first `fill` bytes of the input and processes it. */
    method TopUp(input: array<byte>, ilen: nat, left: nat, fill: nat, ghost all: seq<byte>, ghost n: nat)
      requires input != buffer && Feeds(all, n, input, ilen)
      requires Consumed(all, n, left) && left + fill == 64 && fill <= ilen
      modifies state, buffer
      ensures Consumed(all, n + fill, 0)
    {
      hide Compress, Fold, RegsOf;
      assert input[0..fill] == input[..ilen][..fill] == all[n..n + fill];
      Memcpy(buffer, left, input, 0, fill);
      assert buffer[0..64] == all[n - left..n - left + 64];
      FoldStep(Compress, IV, all, n - left);
      Process(buffer, 0);
    }

    /** Processes a whole block of the input where it lies. */
    method Direct(input: array<byte>, ilen: nat, pos: nat, ghost all: seq<byte>, ghost n: nat)
      requires Feeds(all, n, input, ilen) && Consumed(all, n + pos, 0) && pos + 64 <= ilen
      modifies state
      ensures Consumed(all, n + pos + 64, 0)
    {
      hide Compress, Fold, RegsOf;
      assert input[pos..pos + 64] == input[..ilen][pos..pos + 64] == all[n..][pos..pos + 64]
          == all[n + pos..n + pos + 64];
      FoldStep(Compress, IV, all, n + pos);
      Process(input, pos);
    }

    /** Keeps the last, incomplete block in the buffer. */
    method Keep(input: array<byte>, ilen: nat, pos: nat, left: nat, ghost all: seq<byte>, ghost n: nat)
      requires input != buffer && Feeds(all, n, input, ilen)
      requires Consumed(all, n + pos, left) && pos <= ilen && left + ilen - pos < 64
      modifies buffer
      ensures Consumed(all, |all|, left + ilen - pos)
    {
      hide Compress, Fold, RegsOf;
      Memcpy(buffer, left, input, pos, ilen - pos);
      assert buffer[..left + ilen - pos] == all[n + pos - left..];
    }

    lemma BeginUpdate(all: seq<byte>)
      requires Valid() && absorbed <= all
      ensures total0 % 64 == |absorbed| % 64 && total0 + TWO_32 * total1 == counted % TWO_64
      ensures Shape() && Consumed(all, |absorbed|, |absorbed| % 64) && counted % TWO_32 == |absorbed| % TWO_32
      ensures Summed(absorbed, counted, updates)
    {
      hide Compress, Fold, RegsOf;
      Residue();
      var w := Whole(|absorbed|);
      assert all[..w] == absorbed[..w];
    }

    lemma EndUpdate(left: nat)
      requires Consumed(absorbed, |absorbed|, left)
      requires total0 + TWO_32 * total1 == counted % TWO_64 && counted % TWO_32 == |absorbed| % TWO_32
      requires Summed(absorbed, counted, updates)
      ensures Valid()
    {
      hide Compress, Fold, RegsOf;
      WholeIs(|absorbed|, |absorbed| - left, left);
    }

    /** Processes whole blocks while there are any; an incomplete buffered block rules that out. */
    method Blocks(input: array<byte>, ilen: nat, start: nat, left: nat, ghost all: seq<byte>, ghost n: nat)
      returns (pos: nat, rest: nat)
      requires start <= ilen && left < 64 && (left > 0 ==> ilen - start < 64 - left)
      requires Feeds(all, n, input, ilen) && Consumed(all, n + start, left)
      modifies state
      ensures pos + rest == ilen && rest < 64 && left + rest < 64 && Consumed(all, n + pos, left)
    {
      hide Consumed, Feeds;
      pos, rest := start, ilen - start;
      while rest >= 64
        invariant pos + rest == ilen && (left > 0 ==> rest < 64 - left) && Consumed(all, n + pos, left)
      {
        Direct(input, ilen, pos, all, n);
        pos, rest := pos + 64, rest - 64;
      }
    }

    lemma SummedNext(all: seq<byte>, ilen: nat)
      requires Summed(absorbed, counted, updates) && |all| == |absorbed| + ilen
      ensures Summed(all, counted + ilen % TWO_32, updates + [ilen])
    {
      SumsExtend(updates, ilen);
    }

    /** An update without input changes nothing. */
    ghost method SkipEmpty()
      requires Valid()
      modifies `updates
      ensures Valid() && updates == old(updates) + [0]
    {
      hide Compress, Fold, RegsOf, Sum, Cut;
      SumsExtend(updates, 0);
      updates := updates + [0];
    }

    /** Absorbs `ilen` bytes of `input`; the counter advances by `ilen` cut to 32 bits. */
    method Update(input: array<byte>, ilen: nat)
      requires Valid() && ilen <= input.Length && input != buffer
      modifies this, state, buffer
      ensures Valid() && absorbed == old(absorbed) + old(input[..ilen])
      ensures counted == old(counted) + ilen % TWO_32 && updates == old(updates) + [ilen]
    {
      hide Valid, Consumed, Summed;
      if ilen == 0 {
        SkipEmpty();
        assert absorbed == absorbed + input[..0];
        return;
      }
      ghost var n, all := |absorbed|, absorbed + input[..ilen];
      BeginUpdate(all);
      assert Feeds(all, n, input, ilen);
      hide Feeds;
      TruncatedSum(counted, n, ilen);
      SummedNext(all, ilen);
      var left := total0 % 64;
      var fill := 64 - left;
      Count(ilen % TWO_32, counted);
      absorbed, counted, updates := all, counted + ilen % TWO_32, updates + [ilen];

      var pos, rest := 0, ilen;
      if left != 0 && rest >= fill {
        TopUp(input, ilen, left, fill, all, n);
        pos, rest, left := fill, rest - fill, 0;
      }
      pos, rest := Blocks(input, ilen, pos, left, all, n);
      if rest > 0 {
        Keep(input, ilen, pos, left, all, n);
      }
      EndUpdate(left + rest);
    }

    /** The bit length the counter stands for, as the eight bytes that close the padding. */
    method BitLengthBytes() returns (msglen: array<byte>)
      requires Valid()
      ensures fresh(msglen) && msglen[..] == LengthField(counted)
    {
      hide Compress, Fold, RegsOf, ByteAt, LengthField;
      var high := (total0 / 0x2000_0000) + (total1 * 8) % TWO_32;
      var low := (total0 * 8) % TWO_32;
      BitLength(total0, total1, counted);
      msglen := new byte[8];
      PutCounterLE(low, msglen, 0);
      PutCounterLE(high, msglen, 4);
      LengthWords(counted);
      LengthFieldWords(counted, high, low);
    }

    /** Pads, absorbs the length and writes the digest of the message so padded, which is the digest
        of everything absorbed if no update was as long as 2^32 bytes. */
    method Finish(output: array<byte>)
      requires Valid() && output.Length >= 16 && output != buffer
      modifies this, state, buffer, output
      ensures output[..] == DigestBytes(Fold(Compress, IV, PadAs(old(absorbed), old(counted)))) + old(output[16..])
      ensures old(counted) % TWO_61 == |old(absorbed)| % TWO_61 ==>
                output[..] == Md5(old(absorbed)) + old(output[16..])
      ensures AllShort(old(updates)) ==>
                old(counted) == |old(absorbed)| && output[..] == Md5(old(absorbed)) + old(output[16..])
      ensures Shape()
    {
      hide Compress, Fold, RegsOf, DigestBytes;
      PaddingIsStandardExactly(absorbed, counted);
      Accounted();
      hide Valid, PadAs;
      AbsorbPadding();
      WriteDigest(output);
    }

    lemma Accounted()
      requires Valid()
      ensures AllShort(updates) ==> counted == |absorbed|
    {
      CountsExactly(updates);
    }

    method AbsorbPadding()
      requires Valid()
      modifies this, state, buffer
      ensures Shape() && RegsOf(state[..]) == Fold(Compress, IV, PadAs(old(absorbed), old(counted)))
    {
      hide Compress, Fold, RegsOf, Valid, LengthField;
      var msglen := BitLengthBytes();
      Residue();
      var last := total0 % 64;
      var padn := if last < 56 then 56 - last else 120 - last;
      var padding := PaddingTable();
      PadBitsFromTable(|absorbed|, padding[..]);
      Update(padding, padn);
      Update(msglen, 8);
      assert msglen[..8] == LengthField(old(counted));
      assert absorbed == PadAs(old(absorbed), old(counted));
      AllFolded();
    }

    lemma Residue()
      requires Valid()
      ensures total0 % 64 == |absorbed| % 64
    {
      CounterResidue(total0, total1, counted);
      SameResidue(counted, |absorbed|);
    }

    lemma AllFolded()
      requires Valid() && |absorbed| % 64 == 0
      ensures Shape() && RegsOf(state[..]) == Fold(Compress, IV, absorbed)
    {
      assert absorbed[..|absorbed|] == absorbed;
    }

    method WriteDigest(output: array<byte>)
      requires Shape() && output.Length >= 16
      modifies output
      ensures output[..] == DigestBytes(RegsOf(old(state[..]))) + old(output[16..])
    {
      hide BytesLE;
      ghost var r := RegsOf(state[..]);
      PutUint32LE(state[0], output, 0);
      PutUint32LE(state[1], output, 4);
      ghost var d := BytesLE(r.a) + BytesLE(r.b);
      assert output[..8] == d;
      PutUint32LE(state[2], output, 8);
      d := d + BytesLE(r.c);
      assert output[..12] == d;
      PutUint32LE(state[3], output, 12);
      d := d + BytesLE(r.d);
      assert output[..16] == d;
      assert output[..] == d + old(output[16..]);
    }
  }

  lemma SameResidue(a: nat, b: nat)
    requires a % TWO_32 == b % TWO_32
    ensures a % 64 == b % 64
  {
    AddBlocks(a % TWO_32, 0x400_0000 * (a / TWO_32));
    AddBlocks(b % TWO_32, 0x400_0000 * (b / TWO_32));
  }

  lemma TruncatedSum(a: nat, b: nat, k: nat)
    requires a % TWO_32 == b % TWO_32
    ensures (a + k % TWO_32) % TWO_32 == (b + k) % TWO_32
  {
  }

  /** One-shot entry point over an array (http_client_buffer_md5 minus the hex form). */
  method Md5Once(input: array<byte>, ilen: nat, output: array<byte>)
    requires ilen <= input.Length && output.Length >= 16
    modifies output
    ensures output[..] == DigestBytes(Fold(Compress, IV, PadAs(old(input[..ilen]), ilen % TWO_32))) + old(output[16..])
    ensures ilen < TWO_32 ==> output[..] == Md5(old(input[..ilen])) + old(output[16..])
  {
    hide Md5, Context.Valid, PadAs, Fold, DigestBytes;
    var ctx := new Context.Init();
    ctx.Starts();
    ctx.Update(input, ilen);
    assert ctx.absorbed == input[..ilen];
    ctx.Finish(output);
  }
}
