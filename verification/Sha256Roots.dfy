/** Where the constants of SHA-256 come from: sections 4.2.2 and 5.3.3 of FIPS 180-4 take them from the
    roots of the first prime numbers. */
module Sha256Roots {
  import opened BlockHash
  import opened Sha256Spec

  const TWO_96 := TWO_32 * TWO_64

  /** `n` is the first 32 bits of the fractional part of the cube root of `p`, of which `whole` is the
      whole part. */
  predicate CubeRoot(p: nat, whole: nat, n: uint32) {
    var root := TWO_32 * whole + n;
    root * root * root <= p * TWO_96 < (root + 1) * (root + 1) * (root + 1)
  }

  predicate SquareRoot(p: nat, whole: nat, n: uint32) {
    var root := TWO_32 * whole + n;
    root * root <= p * TWO_64 < (root + 1) * (root + 1)
  }

  predicate IsPrime(n: nat) { n >= 2 && forall d :: 2 <= d < n ==> n % d != 0 }

  /** The first 64 prime numbers, counted from 0. */
  function Prime(t: nat): nat
    requires t < 64
  {
    if t < 4 then Pick(t % 4, 2, 3, 5, 7)
    else if t < 8 then Pick(t % 4, 11, 13, 17, 19)
    else if t < 12 then Pick(t % 4, 23, 29, 31, 37)
    else if t < 16 then Pick(t % 4, 41, 43, 47, 53)
    else if t < 20 then Pick(t % 4, 59, 61, 67, 71)
    else if t < 24 then Pick(t % 4, 73, 79, 83, 89)
    else if t < 28 then Pick(t % 4, 97, 101, 103, 107)
    else if t < 32 then Pick(t % 4, 109, 113, 127, 131)
    else if t < 36 then Pick(t % 4, 137, 139, 149, 151)
    else if t < 40 then Pick(t % 4, 157, 163, 167, 173)
    else if t < 44 then Pick(t % 4, 179, 181, 191, 193)
    else if t < 48 then Pick(t % 4, 197, 199, 211, 223)
    else if t < 52 then Pick(t % 4, 227, 229, 233, 239)
    else if t < 56 then Pick(t % 4, 241, 251, 257, 263)
    else if t < 60 then Pick(t % 4, 269, 271, 277, 281)
    else Pick(t % 4, 283, 293, 307, 311)
  }

  function Whole(t: nat): nat {
    if t < 4 then 1 else if t < 9 then 2 else if t < 18 then 3 else if t < 30 then 4 else if t < 47 then 5 else 6
  }

  lemma Roots0(t: nat)
    requires 0 <= t < 8
    ensures CubeRoot(Prime(t), Whole(t), Num(t))
  {
    assert CubeRoot(2, 1, 0x428A2F98);
    assert CubeRoot(3, 1, 0x71374491);
    assert CubeRoot(5, 1, 0xB5C0FBCF);
    assert CubeRoot(7, 1, 0xE9B5DBA5);
    assert CubeRoot(11, 2, 0x3956C25B);
    assert CubeRoot(13, 2, 0x59F111F1);
    assert CubeRoot(17, 2, 0x923F82A4);
    assert CubeRoot(19, 2, 0xAB1C5ED5);
  }

  lemma Roots1(t: nat)
    requires 8 <= t < 16
    ensures CubeRoot(Prime(t), Whole(t), Num(t))
  {
    assert CubeRoot(23, 2, 0xD807AA98);
    assert CubeRoot(29, 3, 0x12835B01);
    assert CubeRoot(31, 3, 0x243185BE);
    assert CubeRoot(37, 3, 0x550C7DC3);
    assert CubeRoot(41, 3, 0x72BE5D74);
    assert CubeRoot(43, 3, 0x80DEB1FE);
    assert CubeRoot(47, 3, 0x9BDC06A7);
    assert CubeRoot(53, 3, 0xC19BF174);
  }

  lemma Roots2(t: nat)
    requires 16 <= t < 24
    ensures CubeRoot(Prime(t), Whole(t), Num(t))
  {
    assert CubeRoot(59, 3, 0xE49B69C1);
    assert CubeRoot(61, 3, 0xEFBE4786);
    assert CubeRoot(67, 4, 0x0FC19DC6);
    assert CubeRoot(71, 4, 0x240CA1CC);
    assert CubeRoot(73, 4, 0x2DE92C6F);
    assert CubeRoot(79, 4, 0x4A7484AA);
    assert CubeRoot(83, 4, 0x5CB0A9DC);
    assert CubeRoot(89, 4, 0x76F988DA);
  }

  lemma Roots3(t: nat)
    requires 24 <= t < 32
    ensures CubeRoot(Prime(t), Whole(t), Num(t))
  {
    assert CubeRoot(97, 4, 0x983E5152);
    assert CubeRoot(101, 4, 0xA831C66D);
    assert CubeRoot(103, 4, 0xB00327C8);
    assert CubeRoot(107, 4, 0xBF597FC7);
    assert CubeRoot(109, 4, 0xC6E00BF3);
    assert CubeRoot(113, 4, 0xD5A79147);
    assert CubeRoot(127, 5, 0x06CA6351);
    assert CubeRoot(131, 5, 0x14292967);
  }

  lemma Roots4(t: nat)
    requires 32 <= t < 40
    ensures CubeRoot(Prime(t), Whole(t), Num(t))
  {
    assert CubeRoot(137, 5, 0x27B70A85);
    assert CubeRoot(139, 5, 0x2E1B2138);
    assert CubeRoot(149, 5, 0x4D2C6DFC);
    assert CubeRoot(151, 5, 0x53380D13);
    assert CubeRoot(157, 5, 0x650A7354);
    assert CubeRoot(163, 5, 0x766A0ABB);
    assert CubeRoot(167, 5, 0x81C2C92E);
    assert CubeRoot(173, 5, 0x92722C85);
  }

  lemma Roots5(t: nat)
    requires 40 <= t < 48
    ensures CubeRoot(Prime(t), Whole(t), Num(t))
  {
    assert CubeRoot(179, 5, 0xA2BFE8A1);
    assert CubeRoot(181, 5, 0xA81A664B);
    assert CubeRoot(191, 5, 0xC24B8B70);
    assert CubeRoot(193, 5, 0xC76C51A3);
    assert CubeRoot(197, 5, 0xD192E819);
    assert CubeRoot(199, 5, 0xD6990624);
    assert CubeRoot(211, 5, 0xF40E3585);
    assert CubeRoot(223, 6, 0x106AA070);
  }

  lemma Roots6(t: nat)
    requires 48 <= t < 56
    ensures CubeRoot(Prime(t), Whole(t), Num(t))
  {
    assert CubeRoot(227, 6, 0x19A4C116);
    assert CubeRoot(229, 6, 0x1E376C08);
    assert CubeRoot(233, 6, 0x2748774C);
    assert CubeRoot(239, 6, 0x34B0BCB5);
    assert CubeRoot(241, 6, 0x391C0CB3);
    assert CubeRoot(251, 6, 0x4ED8AA4A);
    assert CubeRoot(257, 6, 0x5B9CCA4F);
    assert CubeRoot(263, 6, 0x682E6FF3);
  }

  lemma Roots7(t: nat)
    requires 56 <= t < 64
    ensures CubeRoot(Prime(t), Whole(t), Num(t))
  {
    assert CubeRoot(269, 6, 0x748F82EE);
    assert CubeRoot(271, 6, 0x78A5636F);
    assert CubeRoot(277, 6, 0x84C87814);
    assert CubeRoot(281, 6, 0x8CC70208);
    assert CubeRoot(283, 6, 0x90BEFFFA);
    assert CubeRoot(293, 6, 0xA4506CEB);
    assert CubeRoot(307, 6, 0xBEF9A3F7);
    assert CubeRoot(311, 6, 0xC67178F2);
  }

  /** Every round constant is the cube root of its prime. */
  lemma ConstantsAreCubeRoots(t: nat)
    requires t < 64
    ensures K(t) == AsWord(Num(t)) && CubeRoot(Prime(t), Whole(t), Num(t))
  {
    if t < 8 {
      Roots0(t);
    } else if t < 16 {
      Roots1(t);
    } else if t < 24 {
      Roots2(t);
    } else if t < 32 {
      Roots3(t);
    } else if t < 40 {
      Roots4(t);
    } else if t < 48 {
      Roots5(t);
    } else if t < 56 {
      Roots6(t);
    } else {
      Roots7(t);
    }
  }

  /** And the initial words are the square roots of the first eight. */
  lemma InitialWordsAreSquareRoots()
    ensures IV.a == AsWord(0x6A09E667) && SquareRoot(Prime(0), 1, 0x6A09E667)
    ensures IV.b == AsWord(0xBB67AE85) && SquareRoot(Prime(1), 1, 0xBB67AE85)
    ensures IV.c == AsWord(0x3C6EF372) && SquareRoot(Prime(2), 2, 0x3C6EF372)
    ensures IV.d == AsWord(0xA54FF53A) && SquareRoot(Prime(3), 2, 0xA54FF53A)
    ensures IV.e == AsWord(0x510E527F) && SquareRoot(Prime(4), 3, 0x510E527F)
    ensures IV.f == AsWord(0x9B05688C) && SquareRoot(Prime(5), 3, 0x9B05688C)
    ensures IV.g == AsWord(0x1F83D9AB) && SquareRoot(Prime(6), 4, 0x1F83D9AB)
    ensures IV.h == AsWord(0x5BE0CD19) && SquareRoot(Prime(7), 4, 0x5BE0CD19)
  {
  }

  /** A number below 324 has a divisor of its own only if one of these divides it. */
  predicate HasSmallDivisor(n: nat) {
    n % 2 == 0 || n % 3 == 0 || n % 5 == 0 || n % 7 == 0 || n % 11 == 0 || n % 13 == 0 || n % 17 == 0
  }

  lemma SmallDivisorsDecide(n: nat)
    requires 18 < n < 324
    ensures IsPrime(n) <==> !HasSmallDivisor(n)
  {
    if HasSmallDivisor(n) {
      var d := if n % 2 == 0 then 2 else if n % 3 == 0 then 3 else if n % 5 == 0 then 5 else if n % 7 == 0 then 7
               else if n % 11 == 0 then 11 else if n % 13 == 0 then 13 else 17;
      assert n % d == 0;
    } else {
      forall d | 2 <= d < n
        ensures n % d != 0
      {
        if n % d == 0 {
          Cofactor(n, d, n / d);
        }
      }
    }
  }

  lemma Cofactor(n: nat, d: nat, e: nat)
    requires n == d * e && n < 324 && 2 <= d < n
    ensures HasSmallDivisor(n)
  {
    if d >= 18 && e >= 18 {
      TooLarge(d, e);
    } else if d < 18 {
      SmallFactor(n, d, e);
    } else {
      OtherFactor(n, d, e);
      SmallFactor(n, e, d);
    }
  }

  lemma TooLarge(d: nat, e: nat)
    requires d >= 18 && e >= 18
    ensures d * e >= 324
  {
    assert d * e >= 18 * e;
  }

  lemma OtherFactor(n: nat, d: nat, e: nat)
    requires n == d * e && 2 <= d < n
    ensures 2 <= e && n == e * d
  {
  }

  lemma SmallFactor(n: nat, d: nat, e: nat)
    requires n == d * e && 2 <= d < 18
    ensures HasSmallDivisor(n)
  {
    if d == 2 {
      Multiple(n, 2, e);
    } else if d == 3 {
      Multiple(n, 3, e);
    } else if d == 4 {
      Multiple(n, 2, 2 * e);
    } else if d == 5 {
      Multiple(n, 5, e);
    } else if d == 6 {
      Multiple(n, 2, 3 * e);
    } else if d == 7 {
      Multiple(n, 7, e);
    } else if d == 8 {
      Multiple(n, 2, 4 * e);
    } else if d == 9 {
      Multiple(n, 3, 3 * e);
    } else if d == 10 {
      Multiple(n, 2, 5 * e);
    } else if d == 11 {
      Multiple(n, 11, e);
    } else if d == 12 {
      Multiple(n, 2, 6 * e);
    } else if d == 13 {
      Multiple(n, 13, e);
    } else if d == 14 {
      Multiple(n, 2, 7 * e);
    } else if d == 15 {
      Multiple(n, 3, 5 * e);
    } else if d == 16 {
      Multiple(n, 2, 8 * e);
    } else {
      Multiple(n, 17, e);
    }
  }

  lemma Multiple(n: nat, q: nat, c: nat)
    requires n == q * c && q in {2, 3, 5, 7, 11, 13, 17}
    ensures HasSmallDivisor(n)
  {
    if q == 2 {
      Twos(c);
    } else if q == 3 {
      Threes(c);
    } else if q == 5 {
      Fives(c);
    } else if q == 7 {
      Sevens(c);
    } else if q == 11 {
      Elevens(c);
    } else if q == 13 {
      Thirteens(c);
    } else {
      Seventeens(c);
    }
  }

  lemma Twos(c: nat)
    ensures (2 * c) % 2 == 0
  {
  }

  lemma Threes(c: nat)
    ensures (3 * c) % 3 == 0
  {
  }

  lemma Fives(c: nat)
    ensures (5 * c) % 5 == 0
  {
  }

  lemma Sevens(c: nat)
    ensures (7 * c) % 7 == 0
  {
  }

  lemma Elevens(c: nat)
    ensures (11 * c) % 11 == 0
  {
  }

  lemma Thirteens(c: nat)
    ensures (13 * c) % 13 == 0
  {
  }

  lemma Seventeens(c: nat)
    ensures (17 * c) % 17 == 0
  {
  }

  lemma PrimesAreListed(n: nat)
    requires IsPrime(n) && n <= 311
    ensures exists t :: 0 <= t < 64 && Prime(t) == n
  {
    if n < 19 {
      UpTo18(n);
    } else {
      SmallDivisorsDecide(n);
      if n < 39 {
        From19(n);
      } else if n < 59 {
        From39(n);
      } else if n < 79 {
        From59(n);
      } else if n < 99 {
        From79(n);
      } else if n < 119 {
        From99(n);
      } else if n < 139 {
        From119(n);
      } else if n < 159 {
        From139(n);
      } else if n < 179 {
        From159(n);
      } else if n < 199 {
        From179(n);
      } else if n < 219 {
        From199(n);
      } else if n < 239 {
        From219(n);
      } else if n < 259 {
        From239(n);
      } else if n < 279 {
        From259(n);
      } else if n < 299 {
        From279(n);
      } else {
        From299(n);
      }
    }
  }

  lemma UpTo18(n: nat)
    requires n < 19 && IsPrime(n)
    ensures exists t :: 0 <= t < 64 && Prime(t) == n
  {
    assert n >= 2 && (n > 2 ==> n % 2 != 0) && (n > 3 ==> n % 3 != 0);
    assert Prime(0) == 2 && Prime(1) == 3 && Prime(2) == 5 && Prime(3) == 7 && Prime(4) == 11 && Prime(5) == 13
           && Prime(6) == 17;
  }

  lemma From19(n: nat)
    requires 19 <= n < 39 && !HasSmallDivisor(n)
    ensures exists t :: 0 <= t < 64 && Prime(t) == n
  {
    assert n == 19 || n == 23 || n == 29 || n == 31 || n == 37;
    assert Prime(7) == 19 && Prime(8) == 23 && Prime(9) == 29 && Prime(10) == 31 && Prime(11) == 37;
  }

  lemma From39(n: nat)
    requires 39 <= n < 59 && !HasSmallDivisor(n)
    ensures exists t :: 0 <= t < 64 && Prime(t) == n
  {
    assert n == 41 || n == 43 || n == 47 || n == 53;
    assert Prime(12) == 41 && Prime(13) == 43 && Prime(14) == 47 && Prime(15) == 53;
  }

  lemma From59(n: nat)
    requires 59 <= n < 79 && !HasSmallDivisor(n)
    ensures exists t :: 0 <= t < 64 && Prime(t) == n
  {
    assert n == 59 || n == 61 || n == 67 || n == 71 || n == 73;
    assert Prime(16) == 59 && Prime(17) == 61 && Prime(18) == 67 && Prime(19) == 71 && Prime(20) == 73;
  }

  lemma From79(n: nat)
    requires 79 <= n < 99 && !HasSmallDivisor(n)
    ensures exists t :: 0 <= t < 64 && Prime(t) == n
  {
    assert n == 79 || n == 83 || n == 89 || n == 97;
    assert Prime(21) == 79 && Prime(22) == 83 && Prime(23) == 89 && Prime(24) == 97;
  }

  lemma From99(n: nat)
    requires 99 <= n < 119 && !HasSmallDivisor(n)
    ensures exists t :: 0 <= t < 64 && Prime(t) == n
  {
    assert n == 101 || n == 103 || n == 107 || n == 109 || n == 113;
    assert Prime(25) == 101 && Prime(26) == 103 && Prime(27) == 107 && Prime(28) == 109 && Prime(29) == 113;
  }

  lemma From119(n: nat)
    requires 119 <= n < 139 && !HasSmallDivisor(n)
    ensures exists t :: 0 <= t < 64 && Prime(t) == n
  {
    assert n == 127 || n == 131 || n == 137;
    assert Prime(30) == 127 && Prime(31) == 131 && Prime(32) == 137;
  }

  lemma From139(n: nat)
    requires 139 <= n < 159 && !HasSmallDivisor(n)
    ensures exists t :: 0 <= t < 64 && Prime(t) == n
  {
    assert n == 139 || n == 149 || n == 151 || n == 157;
    assert Prime(33) == 139 && Prime(34) == 149 && Prime(35) == 151 && Prime(36) == 157;
  }

  lemma From159(n: nat)
    requires 159 <= n < 179 && !HasSmallDivisor(n)
    ensures exists t :: 0 <= t < 64 && Prime(t) == n
  {
    assert n == 163 || n == 167 || n == 173;
    assert Prime(37) == 163 && Prime(38) == 167 && Prime(39) == 173;
  }

  lemma From179(n: nat)
    requires 179 <= n < 199 && !HasSmallDivisor(n)
    ensures exists t :: 0 <= t < 64 && Prime(t) == n
  {
    assert n == 179 || n == 181 || n == 191 || n == 193 || n == 197;
    assert Prime(40) == 179 && Prime(41) == 181 && Prime(42) == 191 && Prime(43) == 193 && Prime(44) == 197;
  }

  lemma From199(n: nat)
    requires 199 <= n < 219 && !HasSmallDivisor(n)
    ensures exists t :: 0 <= t < 64 && Prime(t) == n
  {
    assert n == 199 || n == 211;
    assert Prime(45) == 199 && Prime(46) == 211;
  }

  lemma From219(n: nat)
    requires 219 <= n < 239 && !HasSmallDivisor(n)
    ensures exists t :: 0 <= t < 64 && Prime(t) == n
  {
    assert n == 223 || n == 227 || n == 229 || n == 233;
    assert Prime(47) == 223 && Prime(48) == 227 && Prime(49) == 229 && Prime(50) == 233;
  }

  lemma From239(n: nat)
    requires 239 <= n < 259 && !HasSmallDivisor(n)
    ensures exists t :: 0 <= t < 64 && Prime(t) == n
  {
    assert n == 239 || n == 241 || n == 251 || n == 257;
    assert Prime(51) == 239 && Prime(52) == 241 && Prime(53) == 251 && Prime(54) == 257;
  }

  lemma From259(n: nat)
    requires 259 <= n < 279 && !HasSmallDivisor(n)
    ensures exists t :: 0 <= t < 64 && Prime(t) == n
  {
    assert n == 263 || n == 269 || n == 271 || n == 277;
    assert Prime(55) == 263 && Prime(56) == 269 && Prime(57) == 271 && Prime(58) == 277;
  }

  lemma From279(n: nat)
    requires 279 <= n < 299 && !HasSmallDivisor(n)
    ensures exists t :: 0 <= t < 64 && Prime(t) == n
  {
    assert n == 281 || n == 283 || n == 293;
    assert Prime(59) == 281 && Prime(60) == 283 && Prime(61) == 293;
  }

  lemma From299(n: nat)
    requires 299 <= n < 312 && !HasSmallDivisor(n)
    ensures exists t :: 0 <= t < 64 && Prime(t) == n
  {
    assert n == 307 || n == 311;
    assert Prime(62) == 307 && Prime(63) == 311;
  }

  lemma Ordered0(t: nat)
    requires 0 <= t < 8
    ensures (t > 6 ==> 18 < Prime(t) < 324 && !HasSmallDivisor(Prime(t))) && (t < 63 ==> Prime(t) < Prime(t + 1))
  {
  }

  lemma Ordered1(t: nat)
    requires 8 <= t < 16
    ensures (t > 6 ==> 18 < Prime(t) < 324 && !HasSmallDivisor(Prime(t))) && (t < 63 ==> Prime(t) < Prime(t + 1))
  {
  }

  lemma Ordered2(t: nat)
    requires 16 <= t < 24
    ensures (t > 6 ==> 18 < Prime(t) < 324 && !HasSmallDivisor(Prime(t))) && (t < 63 ==> Prime(t) < Prime(t + 1))
  {
  }

  lemma Ordered3(t: nat)
    requires 24 <= t < 32
    ensures (t > 6 ==> 18 < Prime(t) < 324 && !HasSmallDivisor(Prime(t))) && (t < 63 ==> Prime(t) < Prime(t + 1))
  {
  }

  lemma Ordered4(t: nat)
    requires 32 <= t < 40
    ensures (t > 6 ==> 18 < Prime(t) < 324 && !HasSmallDivisor(Prime(t))) && (t < 63 ==> Prime(t) < Prime(t + 1))
  {
  }

  lemma Ordered5(t: nat)
    requires 40 <= t < 48
    ensures (t > 6 ==> 18 < Prime(t) < 324 && !HasSmallDivisor(Prime(t))) && (t < 63 ==> Prime(t) < Prime(t + 1))
  {
  }

  lemma Ordered6(t: nat)
    requires 48 <= t < 56
    ensures (t > 6 ==> 18 < Prime(t) < 324 && !HasSmallDivisor(Prime(t))) && (t < 63 ==> Prime(t) < Prime(t + 1))
  {
  }

  lemma Ordered7(t: nat)
    requires 56 <= t < 64
    ensures (t > 6 ==> 18 < Prime(t) < 324 && !HasSmallDivisor(Prime(t))) && (t < 63 ==> Prime(t) < Prime(t + 1))
  {
  }

  /** `Prime` lists the prime numbers up to 311, in their order. */
  lemma PrimesInOrder(t: nat)
    requires t < 64
    ensures IsPrime(Prime(t)) && (t < 63 ==> Prime(t) < Prime(t + 1))
  {
    if t < 8 {
      Ordered0(t);
    } else if t < 16 {
      Ordered1(t);
    } else if t < 24 {
      Ordered2(t);
    } else if t < 32 {
      Ordered3(t);
    } else if t < 40 {
      Ordered4(t);
    } else if t < 48 {
      Ordered5(t);
    } else if t < 56 {
      Ordered6(t);
    } else {
      Ordered7(t);
    }
    if t > 6 {
      SmallDivisorsDecide(Prime(t));
    }
  }
}
