/** The worked example of SHA-256, the message "abc", from the 512-bit block to the digest.  Every
    constant, function, rotation and byte order of the specification takes part in it. */
module Sha256Example {
  import opened BlockHash
  import opened Sha256Spec

  const ABC: seq<byte> := [0x61, 0x62, 0x63]

  /** What a later word of the schedule is made of. */
  function Expand(w2: bv32, w7: bv32, w15: bv32, w16: bv32): bv32 {
    Plus(Plus(Plus(SmallSigma1(w2), w7), SmallSigma0(w15)), w16)
  }

  lemma NextWord(m: Block, t: nat)
    requires 16 <= t < 64
    ensures Schedule(m, t)
            == Expand(Schedule(m, t - 2), Schedule(m, t - 7), Schedule(m, t - 15), Schedule(m, t - 16))
  {
  }

  lemma NextRound(m: Block, t: nat)
    requires t < 64
    ensures Rounds(m, IV, t + 1) == Round(Rounds(m, IV, t), K(t), Schedule(m, t))
  {
  }

  ghost predicate Words0(m: Block) {
    Schedule(m, 0) == 0x61626380 && Schedule(m, 1) == 0x00000000 &&
    Schedule(m, 2) == 0x00000000 && Schedule(m, 3) == 0x00000000 &&
    Schedule(m, 4) == 0x00000000 && Schedule(m, 5) == 0x00000000 &&
    Schedule(m, 6) == 0x00000000 && Schedule(m, 7) == 0x00000000 &&
    Schedule(m, 8) == 0x00000000 && Schedule(m, 9) == 0x00000000 &&
    Schedule(m, 10) == 0x00000000 && Schedule(m, 11) == 0x00000000 &&
    Schedule(m, 12) == 0x00000000 && Schedule(m, 13) == 0x00000000 &&
    Schedule(m, 14) == 0x00000000 && Schedule(m, 15) == 0x00000018
  }

  ghost predicate Words1(m: Block) {
    Schedule(m, 16) == 0x61626380 && Schedule(m, 17) == 0x000F0000 &&
    Schedule(m, 18) == 0x7DA86405 && Schedule(m, 19) == 0x600003C6 &&
    Schedule(m, 20) == 0x3E9D7B78 && Schedule(m, 21) == 0x0183FC00 &&
    Schedule(m, 22) == 0x12DCBFDB && Schedule(m, 23) == 0xE2E2C38E &&
    Schedule(m, 24) == 0xC8215C1A && Schedule(m, 25) == 0xB73679A2 &&
    Schedule(m, 26) == 0xE5BC3909 && Schedule(m, 27) == 0x32663C5B &&
    Schedule(m, 28) == 0x9D209D67 && Schedule(m, 29) == 0xEC8726CB &&
    Schedule(m, 30) == 0x702138A4 && Schedule(m, 31) == 0xD3B7973B
  }

  ghost predicate Words2(m: Block) {
    Schedule(m, 32) == 0x93F5997F && Schedule(m, 33) == 0x3B68BA73 &&
    Schedule(m, 34) == 0xAFF4FFC1 && Schedule(m, 35) == 0xF10A5C62 &&
    Schedule(m, 36) == 0x0A8B3996 && Schedule(m, 37) == 0x72AF830A &&
    Schedule(m, 38) == 0x9409E33E && Schedule(m, 39) == 0x24641522 &&
    Schedule(m, 40) == 0x9F47BF94 && Schedule(m, 41) == 0xF0A64F5A &&
    Schedule(m, 42) == 0x3E246A79 && Schedule(m, 43) == 0x27333BA3 &&
    Schedule(m, 44) == 0x0C4763F2 && Schedule(m, 45) == 0x840ABF27 &&
    Schedule(m, 46) == 0x7A290D5D && Schedule(m, 47) == 0x065C43DA
  }

  ghost predicate Words3(m: Block) {
    Schedule(m, 48) == 0xFB3E89CB && Schedule(m, 49) == 0xCC7617DB &&
    Schedule(m, 50) == 0xB9E66C34 && Schedule(m, 51) == 0xA9993667 &&
    Schedule(m, 52) == 0x84BADEDD && Schedule(m, 53) == 0xC21462BC &&
    Schedule(m, 54) == 0x1487472C && Schedule(m, 55) == 0xB20F7A99 &&
    Schedule(m, 56) == 0xEF57B9CD && Schedule(m, 57) == 0xEBE6B238 &&
    Schedule(m, 58) == 0x9FE3095E && Schedule(m, 59) == 0x78BC8D4B &&
    Schedule(m, 60) == 0xA43FCF15 && Schedule(m, 61) == 0x668B2FF8 &&
    Schedule(m, 62) == 0xEEABA2CC && Schedule(m, 63) == 0x12B1EDEB
  }

  /** The padded message is a single block. */
  lemma Padded()
    ensures var m := Pad(ABC);
            && |m| == 64 && m[0] == 0x61 && m[1] == 0x62 && m[2] == 0x63 && m[3] == 0x80
            && (forall i :: 4 <= i < 63 ==> m[i] == 0) && m[63] == 0x18
  {
    var m, l := Pad(ABC), LengthField(3);
    assert forall i :: 0 <= i < 8 ==> l[i] == ByteAt(24, 7 - i);
    assert l[7] == 0x18;
    forall i | 0 <= i < 7
      ensures l[i] == 0
    {
      assert 24 / Pow256(7 - i) % 256 == 0;
    }
    assert m == ABC + ([0x80] + Zeros(52)) + l;
  }

  lemma FirstWords(m: Block)
    requires m[0] == 0x61 && m[1] == 0x62 && m[2] == 0x63 && m[3] == 0x80
    requires (forall i :: 4 <= i < 63 ==> m[i] == 0) && m[63] == 0x18
    ensures Words0(m)
  {
    forall t | 0 <= t < 16
      ensures Schedule(m, t) == if t == 0 then 0x61626380 else if t == 15 then 0x18 else 0
    {
      WordOfBytes(m[4 * t], m[4 * t + 1], m[4 * t + 2], m[4 * t + 3]);
    }
  }

  lemma WordOfBytes(a: byte, b: byte, c: byte, d: byte)
    ensures WordBE([0x61, 0x62, 0x63, 0x80], 0) == 0x61626380
    ensures a == b == c == 0 ==> WordBE([a, b, c, d], 0) == d as bv32
  {
  }

  lemma Expanded1()
    ensures Expand(0x00000000, 0x00000000, 0x00000000, 0x61626380) == 0x61626380
    ensures Expand(0x00000018, 0x00000000, 0x00000000, 0x00000000) == 0x000F0000
    ensures Expand(0x61626380, 0x00000000, 0x00000000, 0x00000000) == 0x7DA86405
    ensures Expand(0x000F0000, 0x00000000, 0x00000000, 0x00000000) == 0x600003C6
    ensures Expand(0x7DA86405, 0x00000000, 0x00000000, 0x00000000) == 0x3E9D7B78
    ensures Expand(0x600003C6, 0x00000000, 0x00000000, 0x00000000) == 0x0183FC00
    ensures Expand(0x3E9D7B78, 0x00000018, 0x00000000, 0x00000000) == 0x12DCBFDB
    ensures Expand(0x0183FC00, 0x61626380, 0x00000000, 0x00000000) == 0xE2E2C38E
    ensures Expand(0x12DCBFDB, 0x000F0000, 0x00000000, 0x00000000) == 0xC8215C1A
    ensures Expand(0xE2E2C38E, 0x7DA86405, 0x00000000, 0x00000000) == 0xB73679A2
    ensures Expand(0xC8215C1A, 0x600003C6, 0x00000000, 0x00000000) == 0xE5BC3909
    ensures Expand(0xB73679A2, 0x3E9D7B78, 0x00000000, 0x00000000) == 0x32663C5B
    ensures Expand(0xE5BC3909, 0x0183FC00, 0x00000000, 0x00000000) == 0x9D209D67
    ensures Expand(0x32663C5B, 0x12DCBFDB, 0x00000000, 0x00000000) == 0xEC8726CB
    ensures Expand(0x9D209D67, 0xE2E2C38E, 0x00000018, 0x00000000) == 0x702138A4
    ensures Expand(0xEC8726CB, 0xC8215C1A, 0x61626380, 0x00000018) == 0xD3B7973B
  {
  }

  lemma MoreWords1(m: Block)
    requires Words0(m)
    ensures Words1(m)
  {
    Expanded1();
    hide Expand, Schedule;
    NextWord(m, 16); NextWord(m, 17); NextWord(m, 18); NextWord(m, 19);
    NextWord(m, 20); NextWord(m, 21); NextWord(m, 22); NextWord(m, 23);
    NextWord(m, 24); NextWord(m, 25); NextWord(m, 26); NextWord(m, 27);
    NextWord(m, 28); NextWord(m, 29); NextWord(m, 30); NextWord(m, 31);
  }

  lemma Expanded2()
    ensures Expand(0x702138A4, 0xB73679A2, 0x000F0000, 0x61626380) == 0x93F5997F
    ensures Expand(0xD3B7973B, 0xE5BC3909, 0x7DA86405, 0x000F0000) == 0x3B68BA73
    ensures Expand(0x93F5997F, 0x32663C5B, 0x600003C6, 0x7DA86405) == 0xAFF4FFC1
    ensures Expand(0x3B68BA73, 0x9D209D67, 0x3E9D7B78, 0x600003C6) == 0xF10A5C62
    ensures Expand(0xAFF4FFC1, 0xEC8726CB, 0x0183FC00, 0x3E9D7B78) == 0x0A8B3996
    ensures Expand(0xF10A5C62, 0x702138A4, 0x12DCBFDB, 0x0183FC00) == 0x72AF830A
    ensures Expand(0x0A8B3996, 0xD3B7973B, 0xE2E2C38E, 0x12DCBFDB) == 0x9409E33E
    ensures Expand(0x72AF830A, 0x93F5997F, 0xC8215C1A, 0xE2E2C38E) == 0x24641522
    ensures Expand(0x9409E33E, 0x3B68BA73, 0xB73679A2, 0xC8215C1A) == 0x9F47BF94
    ensures Expand(0x24641522, 0xAFF4FFC1, 0xE5BC3909, 0xB73679A2) == 0xF0A64F5A
    ensures Expand(0x9F47BF94, 0xF10A5C62, 0x32663C5B, 0xE5BC3909) == 0x3E246A79
    ensures Expand(0xF0A64F5A, 0x0A8B3996, 0x9D209D67, 0x32663C5B) == 0x27333BA3
    ensures Expand(0x3E246A79, 0x72AF830A, 0xEC8726CB, 0x9D209D67) == 0x0C4763F2
    ensures Expand(0x27333BA3, 0x9409E33E, 0x702138A4, 0xEC8726CB) == 0x840ABF27
    ensures Expand(0x0C4763F2, 0x24641522, 0xD3B7973B, 0x702138A4) == 0x7A290D5D
    ensures Expand(0x840ABF27, 0x9F47BF94, 0x93F5997F, 0xD3B7973B) == 0x065C43DA
  {
  }

  lemma MoreWords2(m: Block)
    requires Words1(m)
    ensures Words2(m)
  {
    Expanded2();
    hide Expand, Schedule;
    NextWord(m, 32); NextWord(m, 33); NextWord(m, 34); NextWord(m, 35);
    NextWord(m, 36); NextWord(m, 37); NextWord(m, 38); NextWord(m, 39);
    NextWord(m, 40); NextWord(m, 41); NextWord(m, 42); NextWord(m, 43);
    NextWord(m, 44); NextWord(m, 45); NextWord(m, 46); NextWord(m, 47);
  }

  lemma Expanded3()
    ensures Expand(0x7A290D5D, 0xF0A64F5A, 0x3B68BA73, 0x93F5997F) == 0xFB3E89CB
    ensures Expand(0x065C43DA, 0x3E246A79, 0xAFF4FFC1, 0x3B68BA73) == 0xCC7617DB
    ensures Expand(0xFB3E89CB, 0x27333BA3, 0xF10A5C62, 0xAFF4FFC1) == 0xB9E66C34
    ensures Expand(0xCC7617DB, 0x0C4763F2, 0x0A8B3996, 0xF10A5C62) == 0xA9993667
    ensures Expand(0xB9E66C34, 0x840ABF27, 0x72AF830A, 0x0A8B3996) == 0x84BADEDD
    ensures Expand(0xA9993667, 0x7A290D5D, 0x9409E33E, 0x72AF830A) == 0xC21462BC
    ensures Expand(0x84BADEDD, 0x065C43DA, 0x24641522, 0x9409E33E) == 0x1487472C
    ensures Expand(0xC21462BC, 0xFB3E89CB, 0x9F47BF94, 0x24641522) == 0xB20F7A99
    ensures Expand(0x1487472C, 0xCC7617DB, 0xF0A64F5A, 0x9F47BF94) == 0xEF57B9CD
    ensures Expand(0xB20F7A99, 0xB9E66C34, 0x3E246A79, 0xF0A64F5A) == 0xEBE6B238
    ensures Expand(0xEF57B9CD, 0xA9993667, 0x27333BA3, 0x3E246A79) == 0x9FE3095E
    ensures Expand(0xEBE6B238, 0x84BADEDD, 0x0C4763F2, 0x27333BA3) == 0x78BC8D4B
    ensures Expand(0x9FE3095E, 0xC21462BC, 0x840ABF27, 0x0C4763F2) == 0xA43FCF15
    ensures Expand(0x78BC8D4B, 0x1487472C, 0x7A290D5D, 0x840ABF27) == 0x668B2FF8
    ensures Expand(0xA43FCF15, 0xB20F7A99, 0x065C43DA, 0x7A290D5D) == 0xEEABA2CC
    ensures Expand(0x668B2FF8, 0xEF57B9CD, 0xFB3E89CB, 0x065C43DA) == 0x12B1EDEB
  {
  }

  lemma MoreWords3(m: Block)
    requires Words2(m)
    ensures Words3(m)
  {
    Expanded3();
    hide Expand, Schedule;
    NextWord(m, 48); NextWord(m, 49); NextWord(m, 50); NextWord(m, 51);
    NextWord(m, 52); NextWord(m, 53); NextWord(m, 54); NextWord(m, 55);
    NextWord(m, 56); NextWord(m, 57); NextWord(m, 58); NextWord(m, 59);
    NextWord(m, 60); NextWord(m, 61); NextWord(m, 62); NextWord(m, 63);
  }

  lemma Computed0()
    ensures Round(Regs(0x6A09E667, 0xBB67AE85, 0x3C6EF372, 0xA54FF53A, 0x510E527F, 0x9B05688C, 0x1F83D9AB, 0x5BE0CD19),
                  0x428A2F98, 0x61626380)
            == Regs(0x5D6AEBCD, 0x6A09E667, 0xBB67AE85, 0x3C6EF372, 0xFA2A4622, 0x510E527F, 0x9B05688C, 0x1F83D9AB)
    ensures Round(Regs(0x5D6AEBCD, 0x6A09E667, 0xBB67AE85, 0x3C6EF372, 0xFA2A4622, 0x510E527F, 0x9B05688C, 0x1F83D9AB),
                  0x71374491, 0x00000000)
            == Regs(0x5A6AD9AD, 0x5D6AEBCD, 0x6A09E667, 0xBB67AE85, 0x78CE7989, 0xFA2A4622, 0x510E527F, 0x9B05688C)
    ensures Round(Regs(0x5A6AD9AD, 0x5D6AEBCD, 0x6A09E667, 0xBB67AE85, 0x78CE7989, 0xFA2A4622, 0x510E527F, 0x9B05688C),
                  0xB5C0FBCF, 0x00000000)
            == Regs(0xC8C347A7, 0x5A6AD9AD, 0x5D6AEBCD, 0x6A09E667, 0xF92939EB, 0x78CE7989, 0xFA2A4622, 0x510E527F)
    ensures Round(Regs(0xC8C347A7, 0x5A6AD9AD, 0x5D6AEBCD, 0x6A09E667, 0xF92939EB, 0x78CE7989, 0xFA2A4622, 0x510E527F),
                  0xE9B5DBA5, 0x00000000)
            == Regs(0xD550F666, 0xC8C347A7, 0x5A6AD9AD, 0x5D6AEBCD, 0x24E00850, 0xF92939EB, 0x78CE7989, 0xFA2A4622)
    ensures Round(Regs(0xD550F666, 0xC8C347A7, 0x5A6AD9AD, 0x5D6AEBCD, 0x24E00850, 0xF92939EB, 0x78CE7989, 0xFA2A4622),
                  0x3956C25B, 0x00000000)
            == Regs(0x04409A6A, 0xD550F666, 0xC8C347A7, 0x5A6AD9AD, 0x43ADA245, 0x24E00850, 0xF92939EB, 0x78CE7989)
    ensures Round(Regs(0x04409A6A, 0xD550F666, 0xC8C347A7, 0x5A6AD9AD, 0x43ADA245, 0x24E00850, 0xF92939EB, 0x78CE7989),
                  0x59F111F1, 0x00000000)
            == Regs(0x2B4209F5, 0x04409A6A, 0xD550F666, 0xC8C347A7, 0x714260AD, 0x43ADA245, 0x24E00850, 0xF92939EB)
    ensures Round(Regs(0x2B4209F5, 0x04409A6A, 0xD550F666, 0xC8C347A7, 0x714260AD, 0x43ADA245, 0x24E00850, 0xF92939EB),
                  0x923F82A4, 0x00000000)
            == Regs(0xE5030380, 0x2B4209F5, 0x04409A6A, 0xD550F666, 0x9B27A401, 0x714260AD, 0x43ADA245, 0x24E00850)
    ensures Round(Regs(0xE5030380, 0x2B4209F5, 0x04409A6A, 0xD550F666, 0x9B27A401, 0x714260AD, 0x43ADA245, 0x24E00850),
                  0xAB1C5ED5, 0x00000000)
            == Regs(0x85A07B5F, 0xE5030380, 0x2B4209F5, 0x04409A6A, 0x0C657A79, 0x9B27A401, 0x714260AD, 0x43ADA245)
  {
  }

  lemma Cast0()
    ensures AsWord(0x428A2F98) == 0x428A2F98
    ensures AsWord(0x71374491) == 0x71374491
    ensures AsWord(0xB5C0FBCF) == 0xB5C0FBCF
    ensures AsWord(0xE9B5DBA5) == 0xE9B5DBA5
    ensures AsWord(0x3956C25B) == 0x3956C25B
    ensures AsWord(0x59F111F1) == 0x59F111F1
    ensures AsWord(0x923F82A4) == 0x923F82A4
    ensures AsWord(0xAB1C5ED5) == 0xAB1C5ED5
  {
  }

  lemma Reached0(m: Block)
    requires Words0(m)
    ensures Rounds(m, IV, 8)
            == Regs(0x85A07B5F, 0xE5030380, 0x2B4209F5, 0x04409A6A, 0x0C657A79, 0x9B27A401, 0x714260AD, 0x43ADA245)
  {
    NoRounds(m);
    Computed0();
    Cast0();
    hide Round, Rounds, Schedule, AsWord;
    NextRound(m, 0); NextRound(m, 1); NextRound(m, 2); NextRound(m, 3);
    NextRound(m, 4); NextRound(m, 5); NextRound(m, 6); NextRound(m, 7);
  }

  lemma Computed1()
    ensures Round(Regs(0x85A07B5F, 0xE5030380, 0x2B4209F5, 0x04409A6A, 0x0C657A79, 0x9B27A401, 0x714260AD, 0x43ADA245),
                  0xD807AA98, 0x00000000)
            == Regs(0x8E04ECB9, 0x85A07B5F, 0xE5030380, 0x2B4209F5, 0x32CA2D8C, 0x0C657A79, 0x9B27A401, 0x714260AD)
    ensures Round(Regs(0x8E04ECB9, 0x85A07B5F, 0xE5030380, 0x2B4209F5, 0x32CA2D8C, 0x0C657A79, 0x9B27A401, 0x714260AD),
                  0x12835B01, 0x00000000)
            == Regs(0x8C87346B, 0x8E04ECB9, 0x85A07B5F, 0xE5030380, 0x1CC92596, 0x32CA2D8C, 0x0C657A79, 0x9B27A401)
    ensures Round(Regs(0x8C87346B, 0x8E04ECB9, 0x85A07B5F, 0xE5030380, 0x1CC92596, 0x32CA2D8C, 0x0C657A79, 0x9B27A401),
                  0x243185BE, 0x00000000)
            == Regs(0x4798A3F4, 0x8C87346B, 0x8E04ECB9, 0x85A07B5F, 0x436B23E8, 0x1CC92596, 0x32CA2D8C, 0x0C657A79)
    ensures Round(Regs(0x4798A3F4, 0x8C87346B, 0x8E04ECB9, 0x85A07B5F, 0x436B23E8, 0x1CC92596, 0x32CA2D8C, 0x0C657A79),
                  0x550C7DC3, 0x00000000)
            == Regs(0xF71FC5A9, 0x4798A3F4, 0x8C87346B, 0x8E04ECB9, 0x816FD6E9, 0x436B23E8, 0x1CC92596, 0x32CA2D8C)
    ensures Round(Regs(0xF71FC5A9, 0x4798A3F4, 0x8C87346B, 0x8E04ECB9, 0x816FD6E9, 0x436B23E8, 0x1CC92596, 0x32CA2D8C),
                  0x72BE5D74, 0x00000000)
            == Regs(0x87912990, 0xF71FC5A9, 0x4798A3F4, 0x8C87346B, 0x1E578218, 0x816FD6E9, 0x436B23E8, 0x1CC92596)
    ensures Round(Regs(0x87912990, 0xF71FC5A9, 0x4798A3F4, 0x8C87346B, 0x1E578218, 0x816FD6E9, 0x436B23E8, 0x1CC92596),
                  0x80DEB1FE, 0x00000000)
            == Regs(0xD932EB16, 0x87912990, 0xF71FC5A9, 0x4798A3F4, 0x745A48DE, 0x1E578218, 0x816FD6E9, 0x436B23E8)
    ensures Round(Regs(0xD932EB16, 0x87912990, 0xF71FC5A9, 0x4798A3F4, 0x745A48DE, 0x1E578218, 0x816FD6E9, 0x436B23E8),
                  0x9BDC06A7, 0x00000000)
            == Regs(0xC0645FDE, 0xD932EB16, 0x87912990, 0xF71FC5A9, 0x0B92F20C, 0x745A48DE, 0x1E578218, 0x816FD6E9)
    ensures Round(Regs(0xC0645FDE, 0xD932EB16, 0x87912990, 0xF71FC5A9, 0x0B92F20C, 0x745A48DE, 0x1E578218, 0x816FD6E9),
                  0xC19BF174, 0x00000018)
            == Regs(0xB0FA238E, 0xC0645FDE, 0xD932EB16, 0x87912990, 0x07590DCD, 0x0B92F20C, 0x745A48DE, 0x1E578218)
  {
  }

  lemma Cast1()
    ensures AsWord(0xD807AA98) == 0xD807AA98
    ensures AsWord(0x12835B01) == 0x12835B01
    ensures AsWord(0x243185BE) == 0x243185BE
    ensures AsWord(0x550C7DC3) == 0x550C7DC3
    ensures AsWord(0x72BE5D74) == 0x72BE5D74
    ensures AsWord(0x80DEB1FE) == 0x80DEB1FE
    ensures AsWord(0x9BDC06A7) == 0x9BDC06A7
    ensures AsWord(0xC19BF174) == 0xC19BF174
  {
  }

  lemma Reached1(m: Block)
    requires Words0(m)
    ensures Rounds(m, IV, 16)
            == Regs(0xB0FA238E, 0xC0645FDE, 0xD932EB16, 0x87912990, 0x07590DCD, 0x0B92F20C, 0x745A48DE, 0x1E578218)
  {
    hide Round, Rounds, Schedule, AsWord;
    Reached0(m);
    Computed1();
    Cast1();
    NextRound(m, 8); NextRound(m, 9); NextRound(m, 10); NextRound(m, 11);
    NextRound(m, 12); NextRound(m, 13); NextRound(m, 14); NextRound(m, 15);
  }

  lemma Computed2()
    ensures Round(Regs(0xB0FA238E, 0xC0645FDE, 0xD932EB16, 0x87912990, 0x07590DCD, 0x0B92F20C, 0x745A48DE, 0x1E578218),
                  0xE49B69C1, 0x61626380)
            == Regs(0x21DA9A9B, 0xB0FA238E, 0xC0645FDE, 0xD932EB16, 0x8034229C, 0x07590DCD, 0x0B92F20C, 0x745A48DE)
    ensures Round(Regs(0x21DA9A9B, 0xB0FA238E, 0xC0645FDE, 0xD932EB16, 0x8034229C, 0x07590DCD, 0x0B92F20C, 0x745A48DE),
                  0xEFBE4786, 0x000F0000)
            == Regs(0xC2FBD9D1, 0x21DA9A9B, 0xB0FA238E, 0xC0645FDE, 0x846EE454, 0x8034229C, 0x07590DCD, 0x0B92F20C)
    ensures Round(Regs(0xC2FBD9D1, 0x21DA9A9B, 0xB0FA238E, 0xC0645FDE, 0x846EE454, 0x8034229C, 0x07590DCD, 0x0B92F20C),
                  0x0FC19DC6, 0x7DA86405)
            == Regs(0xFE777BBF, 0xC2FBD9D1, 0x21DA9A9B, 0xB0FA238E, 0xCC899961, 0x846EE454, 0x8034229C, 0x07590DCD)
    ensures Round(Regs(0xFE777BBF, 0xC2FBD9D1, 0x21DA9A9B, 0xB0FA238E, 0xCC899961, 0x846EE454, 0x8034229C, 0x07590DCD),
                  0x240CA1CC, 0x600003C6)
            == Regs(0xE1F20C33, 0xFE777BBF, 0xC2FBD9D1, 0x21DA9A9B, 0xB0638179, 0xCC899961, 0x846EE454, 0x8034229C)
    ensures Round(Regs(0xE1F20C33, 0xFE777BBF, 0xC2FBD9D1, 0x21DA9A9B, 0xB0638179, 0xCC899961, 0x846EE454, 0x8034229C),
                  0x2DE92C6F, 0x3E9D7B78)
            == Regs(0x9DC68B63, 0xE1F20C33, 0xFE777BBF, 0xC2FBD9D1, 0x8ADA8930, 0xB0638179, 0xCC899961, 0x846EE454)
    ensures Round(Regs(0x9DC68B63, 0xE1F20C33, 0xFE777BBF, 0xC2FBD9D1, 0x8ADA8930, 0xB0638179, 0xCC899961, 0x846EE454),
                  0x4A7484AA, 0x0183FC00)
            == Regs(0xC2606D6D, 0x9DC68B63, 0xE1F20C33, 0xFE777BBF, 0xE1257970, 0x8ADA8930, 0xB0638179, 0xCC899961)
    ensures Round(Regs(0xC2606D6D, 0x9DC68B63, 0xE1F20C33, 0xFE777BBF, 0xE1257970, 0x8ADA8930, 0xB0638179, 0xCC899961),
                  0x5CB0A9DC, 0x12DCBFDB)
            == Regs(0xA7A3623F, 0xC2606D6D, 0x9DC68B63, 0xE1F20C33, 0x49F5114A, 0xE1257970, 0x8ADA8930, 0xB0638179)
    ensures Round(Regs(0xA7A3623F, 0xC2606D6D, 0x9DC68B63, 0xE1F20C33, 0x49F5114A, 0xE1257970, 0x8ADA8930, 0xB0638179),
                  0x76F988DA, 0xE2E2C38E)
            == Regs(0xC5D53D8D, 0xA7A3623F, 0xC2606D6D, 0x9DC68B63, 0xAA47C347, 0x49F5114A, 0xE1257970, 0x8ADA8930)
  {
  }

  lemma Cast2()
    ensures AsWord(0xE49B69C1) == 0xE49B69C1
    ensures AsWord(0xEFBE4786) == 0xEFBE4786
    ensures AsWord(0x0FC19DC6) == 0x0FC19DC6
    ensures AsWord(0x240CA1CC) == 0x240CA1CC
    ensures AsWord(0x2DE92C6F) == 0x2DE92C6F
    ensures AsWord(0x4A7484AA) == 0x4A7484AA
    ensures AsWord(0x5CB0A9DC) == 0x5CB0A9DC
    ensures AsWord(0x76F988DA) == 0x76F988DA
  {
  }

  lemma Reached2(m: Block)
    requires Words0(m)
    ensures Rounds(m, IV, 24)
            == Regs(0xC5D53D8D, 0xA7A3623F, 0xC2606D6D, 0x9DC68B63, 0xAA47C347, 0x49F5114A, 0xE1257970, 0x8ADA8930)
  {
    hide Round, Rounds, Schedule, AsWord;
    MoreWords1(m);
    Reached1(m);
    Computed2();
    Cast2();
    NextRound(m, 16); NextRound(m, 17); NextRound(m, 18); NextRound(m, 19);
    NextRound(m, 20); NextRound(m, 21); NextRound(m, 22); NextRound(m, 23);
  }

  lemma Computed3()
    ensures Round(Regs(0xC5D53D8D, 0xA7A3623F, 0xC2606D6D, 0x9DC68B63, 0xAA47C347, 0x49F5114A, 0xE1257970, 0x8ADA8930),
                  0x983E5152, 0xC8215C1A)
            == Regs(0x1C2C2838, 0xC5D53D8D, 0xA7A3623F, 0xC2606D6D, 0x2823EF91, 0xAA47C347, 0x49F5114A, 0xE1257970)
    ensures Round(Regs(0x1C2C2838, 0xC5D53D8D, 0xA7A3623F, 0xC2606D6D, 0x2823EF91, 0xAA47C347, 0x49F5114A, 0xE1257970),
                  0xA831C66D, 0xB73679A2)
            == Regs(0xCDE8037D, 0x1C2C2838, 0xC5D53D8D, 0xA7A3623F, 0x14383D8E, 0x2823EF91, 0xAA47C347, 0x49F5114A)
    ensures Round(Regs(0xCDE8037D, 0x1C2C2838, 0xC5D53D8D, 0xA7A3623F, 0x14383D8E, 0x2823EF91, 0xAA47C347, 0x49F5114A),
                  0xB00327C8, 0xE5BC3909)
            == Regs(0xB62EC4BC, 0xCDE8037D, 0x1C2C2838, 0xC5D53D8D, 0xC74C6516, 0x14383D8E, 0x2823EF91, 0xAA47C347)
    ensures Round(Regs(0xB62EC4BC, 0xCDE8037D, 0x1C2C2838, 0xC5D53D8D, 0xC74C6516, 0x14383D8E, 0x2823EF91, 0xAA47C347),
                  0xBF597FC7, 0x32663C5B)
            == Regs(0x77D37528, 0xB62EC4BC, 0xCDE8037D, 0x1C2C2838, 0xEDFFBFF8, 0xC74C6516, 0x14383D8E, 0x2823EF91)
    ensures Round(Regs(0x77D37528, 0xB62EC4BC, 0xCDE8037D, 0x1C2C2838, 0xEDFFBFF8, 0xC74C6516, 0x14383D8E, 0x2823EF91),
                  0xC6E00BF3, 0x9D209D67)
            == Regs(0x363482C9, 0x77D37528, 0xB62EC4BC, 0xCDE8037D, 0x6112A3B7, 0xEDFFBFF8, 0xC74C6516, 0x14383D8E)
    ensures Round(Regs(0x363482C9, 0x77D37528, 0xB62EC4BC, 0xCDE8037D, 0x6112A3B7, 0xEDFFBFF8, 0xC74C6516, 0x14383D8E),
                  0xD5A79147, 0xEC8726CB)
            == Regs(0xA0060B30, 0x363482C9, 0x77D37528, 0xB62EC4BC, 0xADE79437, 0x6112A3B7, 0xEDFFBFF8, 0xC74C6516)
    ensures Round(Regs(0xA0060B30, 0x363482C9, 0x77D37528, 0xB62EC4BC, 0xADE79437, 0x6112A3B7, 0xEDFFBFF8, 0xC74C6516),
                  0x06CA6351, 0x702138A4)
            == Regs(0xEA992A22, 0xA0060B30, 0x363482C9, 0x77D37528, 0x0109AB3A, 0xADE79437, 0x6112A3B7, 0xEDFFBFF8)
    ensures Round(Regs(0xEA992A22, 0xA0060B30, 0x363482C9, 0x77D37528, 0x0109AB3A, 0xADE79437, 0x6112A3B7, 0xEDFFBFF8),
                  0x14292967, 0xD3B7973B)
            == Regs(0x73B33BF5, 0xEA992A22, 0xA0060B30, 0x363482C9, 0xBA591112, 0x0109AB3A, 0xADE79437, 0x6112A3B7)
  {
  }

  lemma Cast3()
    ensures AsWord(0x983E5152) == 0x983E5152
    ensures AsWord(0xA831C66D) == 0xA831C66D
    ensures AsWord(0xB00327C8) == 0xB00327C8
    ensures AsWord(0xBF597FC7) == 0xBF597FC7
    ensures AsWord(0xC6E00BF3) == 0xC6E00BF3
    ensures AsWord(0xD5A79147) == 0xD5A79147
    ensures AsWord(0x06CA6351) == 0x06CA6351
    ensures AsWord(0x14292967) == 0x14292967
  {
  }

  lemma Reached3(m: Block)
    requires Words0(m)
    ensures Rounds(m, IV, 32)
            == Regs(0x73B33BF5, 0xEA992A22, 0xA0060B30, 0x363482C9, 0xBA591112, 0x0109AB3A, 0xADE79437, 0x6112A3B7)
  {
    hide Round, Rounds, Schedule, AsWord;
    MoreWords1(m);
    Reached2(m);
    Computed3();
    Cast3();
    NextRound(m, 24); NextRound(m, 25); NextRound(m, 26); NextRound(m, 27);
    NextRound(m, 28); NextRound(m, 29); NextRound(m, 30); NextRound(m, 31);
  }

  lemma Computed4()
    ensures Round(Regs(0x73B33BF5, 0xEA992A22, 0xA0060B30, 0x363482C9, 0xBA591112, 0x0109AB3A, 0xADE79437, 0x6112A3B7),
                  0x27B70A85, 0x93F5997F)
            == Regs(0x98E12507, 0x73B33BF5, 0xEA992A22, 0xA0060B30, 0x9CD9F5F6, 0xBA591112, 0x0109AB3A, 0xADE79437)
    ensures Round(Regs(0x98E12507, 0x73B33BF5, 0xEA992A22, 0xA0060B30, 0x9CD9F5F6, 0xBA591112, 0x0109AB3A, 0xADE79437),
                  0x2E1B2138, 0x3B68BA73)
            == Regs(0xFE604DF5, 0x98E12507, 0x73B33BF5, 0xEA992A22, 0x59249DD3, 0x9CD9F5F6, 0xBA591112, 0x0109AB3A)
    ensures Round(Regs(0xFE604DF5, 0x98E12507, 0x73B33BF5, 0xEA992A22, 0x59249DD3, 0x9CD9F5F6, 0xBA591112, 0x0109AB3A),
                  0x4D2C6DFC, 0xAFF4FFC1)
            == Regs(0xA9A7738C, 0xFE604DF5, 0x98E12507, 0x73B33BF5, 0x085F3833, 0x59249DD3, 0x9CD9F5F6, 0xBA591112)
    ensures Round(Regs(0xA9A7738C, 0xFE604DF5, 0x98E12507, 0x73B33BF5, 0x085F3833, 0x59249DD3, 0x9CD9F5F6, 0xBA591112),
                  0x53380D13, 0xF10A5C62)
            == Regs(0x65A0CFE4, 0xA9A7738C, 0xFE604DF5, 0x98E12507, 0xF4B002D6, 0x085F3833, 0x59249DD3, 0x9CD9F5F6)
    ensures Round(Regs(0x65A0CFE4, 0xA9A7738C, 0xFE604DF5, 0x98E12507, 0xF4B002D6, 0x085F3833, 0x59249DD3, 0x9CD9F5F6),
                  0x650A7354, 0x0A8B3996)
            == Regs(0x41A65CB1, 0x65A0CFE4, 0xA9A7738C, 0xFE604DF5, 0x0772A26B, 0xF4B002D6, 0x085F3833, 0x59249DD3)
    ensures Round(Regs(0x41A65CB1, 0x65A0CFE4, 0xA9A7738C, 0xFE604DF5, 0x0772A26B, 0xF4B002D6, 0x085F3833, 0x59249DD3),
                  0x766A0ABB, 0x72AF830A)
            == Regs(0x34DF1604, 0x41A65CB1, 0x65A0CFE4, 0xA9A7738C, 0xA507A53D, 0x0772A26B, 0xF4B002D6, 0x085F3833)
    ensures Round(Regs(0x34DF1604, 0x41A65CB1, 0x65A0CFE4, 0xA9A7738C, 0xA507A53D, 0x0772A26B, 0xF4B002D6, 0x085F3833),
                  0x81C2C92E, 0x9409E33E)
            == Regs(0x6DC57A8A, 0x34DF1604, 0x41A65CB1, 0x65A0CFE4, 0xF0781BC8, 0xA507A53D, 0x0772A26B, 0xF4B002D6)
    ensures Round(Regs(0x6DC57A8A, 0x34DF1604, 0x41A65CB1, 0x65A0CFE4, 0xF0781BC8, 0xA507A53D, 0x0772A26B, 0xF4B002D6),
                  0x92722C85, 0x24641522)
            == Regs(0x79EA687A, 0x6DC57A8A, 0x34DF1604, 0x41A65CB1, 0x1EFBC0A0, 0xF0781BC8, 0xA507A53D, 0x0772A26B)
  {
  }

  lemma Cast4()
    ensures AsWord(0x27B70A85) == 0x27B70A85
    ensures AsWord(0x2E1B2138) == 0x2E1B2138
    ensures AsWord(0x4D2C6DFC) == 0x4D2C6DFC
    ensures AsWord(0x53380D13) == 0x53380D13
    ensures AsWord(0x650A7354) == 0x650A7354
    ensures AsWord(0x766A0ABB) == 0x766A0ABB
    ensures AsWord(0x81C2C92E) == 0x81C2C92E
    ensures AsWord(0x92722C85) == 0x92722C85
  {
  }

  lemma Reached4(m: Block)
    requires Words0(m)
    ensures Rounds(m, IV, 40)
            == Regs(0x79EA687A, 0x6DC57A8A, 0x34DF1604, 0x41A65CB1, 0x1EFBC0A0, 0xF0781BC8, 0xA507A53D, 0x0772A26B)
  {
    hide Round, Rounds, Schedule, AsWord;
    MoreWords1(m); MoreWords2(m);
    Reached3(m);
    Computed4();
    Cast4();
    NextRound(m, 32); NextRound(m, 33); NextRound(m, 34); NextRound(m, 35);
    NextRound(m, 36); NextRound(m, 37); NextRound(m, 38); NextRound(m, 39);
  }

  lemma Computed5()
    ensures Round(Regs(0x79EA687A, 0x6DC57A8A, 0x34DF1604, 0x41A65CB1, 0x1EFBC0A0, 0xF0781BC8, 0xA507A53D, 0x0772A26B),
                  0xA2BFE8A1, 0x9F47BF94)
            == Regs(0xD6670766, 0x79EA687A, 0x6DC57A8A, 0x34DF1604, 0x26352D63, 0x1EFBC0A0, 0xF0781BC8, 0xA507A53D)
    ensures Round(Regs(0xD6670766, 0x79EA687A, 0x6DC57A8A, 0x34DF1604, 0x26352D63, 0x1EFBC0A0, 0xF0781BC8, 0xA507A53D),
                  0xA81A664B, 0xF0A64F5A)
            == Regs(0xDF46652F, 0xD6670766, 0x79EA687A, 0x6DC57A8A, 0x838B2711, 0x26352D63, 0x1EFBC0A0, 0xF0781BC8)
    ensures Round(Regs(0xDF46652F, 0xD6670766, 0x79EA687A, 0x6DC57A8A, 0x838B2711, 0x26352D63, 0x1EFBC0A0, 0xF0781BC8),
                  0xC24B8B70, 0x3E246A79)
            == Regs(0x17AA0DFE, 0xDF46652F, 0xD6670766, 0x79EA687A, 0xDECD4715, 0x838B2711, 0x26352D63, 0x1EFBC0A0)
    ensures Round(Regs(0x17AA0DFE, 0xDF46652F, 0xD6670766, 0x79EA687A, 0xDECD4715, 0x838B2711, 0x26352D63, 0x1EFBC0A0),
                  0xC76C51A3, 0x27333BA3)
            == Regs(0x9D4BAF93, 0x17AA0DFE, 0xDF46652F, 0xD6670766, 0xFDA24C2E, 0xDECD4715, 0x838B2711, 0x26352D63)
    ensures Round(Regs(0x9D4BAF93, 0x17AA0DFE, 0xDF46652F, 0xD6670766, 0xFDA24C2E, 0xDECD4715, 0x838B2711, 0x26352D63),
                  0xD192E819, 0x0C4763F2)
            == Regs(0x26628815, 0x9D4BAF93, 0x17AA0DFE, 0xDF46652F, 0xA80F11F0, 0xFDA24C2E, 0xDECD4715, 0x838B2711)
    ensures Round(Regs(0x26628815, 0x9D4BAF93, 0x17AA0DFE, 0xDF46652F, 0xA80F11F0, 0xFDA24C2E, 0xDECD4715, 0x838B2711),
                  0xD6990624, 0x840ABF27)
            == Regs(0x72AB4B91, 0x26628815, 0x9D4BAF93, 0x17AA0DFE, 0xB7755DA1, 0xA80F11F0, 0xFDA24C2E, 0xDECD4715)
    ensures Round(Regs(0x72AB4B91, 0x26628815, 0x9D4BAF93, 0x17AA0DFE, 0xB7755DA1, 0xA80F11F0, 0xFDA24C2E, 0xDECD4715),
                  0xF40E3585, 0x7A290D5D)
            == Regs(0xA14C14B0, 0x72AB4B91, 0x26628815, 0x9D4BAF93, 0xD57B94A9, 0xB7755DA1, 0xA80F11F0, 0xFDA24C2E)
    ensures Round(Regs(0xA14C14B0, 0x72AB4B91, 0x26628815, 0x9D4BAF93, 0xD57B94A9, 0xB7755DA1, 0xA80F11F0, 0xFDA24C2E),
                  0x106AA070, 0x065C43DA)
            == Regs(0x4172328D, 0xA14C14B0, 0x72AB4B91, 0x26628815, 0xFECF0BC6, 0xD57B94A9, 0xB7755DA1, 0xA80F11F0)
  {
  }

  lemma Cast5()
    ensures AsWord(0xA2BFE8A1) == 0xA2BFE8A1
    ensures AsWord(0xA81A664B) == 0xA81A664B
    ensures AsWord(0xC24B8B70) == 0xC24B8B70
    ensures AsWord(0xC76C51A3) == 0xC76C51A3
    ensures AsWord(0xD192E819) == 0xD192E819
    ensures AsWord(0xD6990624) == 0xD6990624
    ensures AsWord(0xF40E3585) == 0xF40E3585
    ensures AsWord(0x106AA070) == 0x106AA070
  {
  }

  lemma Reached5(m: Block)
    requires Words0(m)
    ensures Rounds(m, IV, 48)
            == Regs(0x4172328D, 0xA14C14B0, 0x72AB4B91, 0x26628815, 0xFECF0BC6, 0xD57B94A9, 0xB7755DA1, 0xA80F11F0)
  {
    hide Round, Rounds, Schedule, AsWord;
    MoreWords1(m); MoreWords2(m);
    Reached4(m);
    Computed5();
    Cast5();
    NextRound(m, 40); NextRound(m, 41); NextRound(m, 42); NextRound(m, 43);
    NextRound(m, 44); NextRound(m, 45); NextRound(m, 46); NextRound(m, 47);
  }

  lemma Computed6()
    ensures Round(Regs(0x4172328D, 0xA14C14B0, 0x72AB4B91, 0x26628815, 0xFECF0BC6, 0xD57B94A9, 0xB7755DA1, 0xA80F11F0),
                  0x19A4C116, 0xFB3E89CB)
            == Regs(0x05757CEB, 0x4172328D, 0xA14C14B0, 0x72AB4B91, 0xBD714038, 0xFECF0BC6, 0xD57B94A9, 0xB7755DA1)
    ensures Round(Regs(0x05757CEB, 0x4172328D, 0xA14C14B0, 0x72AB4B91, 0xBD714038, 0xFECF0BC6, 0xD57B94A9, 0xB7755DA1),
                  0x1E376C08, 0xCC7617DB)
            == Regs(0xF11BFAA8, 0x05757CEB, 0x4172328D, 0xA14C14B0, 0x6E5C390C, 0xBD714038, 0xFECF0BC6, 0xD57B94A9)
    ensures Round(Regs(0xF11BFAA8, 0x05757CEB, 0x4172328D, 0xA14C14B0, 0x6E5C390C, 0xBD714038, 0xFECF0BC6, 0xD57B94A9),
                  0x2748774C, 0xB9E66C34)
            == Regs(0x7A0508A1, 0xF11BFAA8, 0x05757CEB, 0x4172328D, 0x52F1CCF7, 0x6E5C390C, 0xBD714038, 0xFECF0BC6)
    ensures Round(Regs(0x7A0508A1, 0xF11BFAA8, 0x05757CEB, 0x4172328D, 0x52F1CCF7, 0x6E5C390C, 0xBD714038, 0xFECF0BC6),
                  0x34B0BCB5, 0xA9993667)
            == Regs(0x886E7A22, 0x7A0508A1, 0xF11BFAA8, 0x05757CEB, 0x49231C1E, 0x52F1CCF7, 0x6E5C390C, 0xBD714038)
    ensures Round(Regs(0x886E7A22, 0x7A0508A1, 0xF11BFAA8, 0x05757CEB, 0x49231C1E, 0x52F1CCF7, 0x6E5C390C, 0xBD714038),
                  0x391C0CB3, 0x84BADEDD)
            == Regs(0x101FD28F, 0x886E7A22, 0x7A0508A1, 0xF11BFAA8, 0x529E7D00, 0x49231C1E, 0x52F1CCF7, 0x6E5C390C)
    ensures Round(Regs(0x101FD28F, 0x886E7A22, 0x7A0508A1, 0xF11BFAA8, 0x529E7D00, 0x49231C1E, 0x52F1CCF7, 0x6E5C390C),
                  0x4ED8AA4A, 0xC21462BC)
            == Regs(0xF5702FDB, 0x101FD28F, 0x886E7A22, 0x7A0508A1, 0x9F4787C3, 0x529E7D00, 0x49231C1E, 0x52F1CCF7)
    ensures Round(Regs(0xF5702FDB, 0x101FD28F, 0x886E7A22, 0x7A0508A1, 0x9F4787C3, 0x529E7D00, 0x49231C1E, 0x52F1CCF7),
                  0x5B9CCA4F, 0x1487472C)
            == Regs(0x3EC45CDB, 0xF5702FDB, 0x101FD28F, 0x886E7A22, 0xE50E1B4F, 0x9F4787C3, 0x529E7D00, 0x49231C1E)
    ensures Round(Regs(0x3EC45CDB, 0xF5702FDB, 0x101FD28F, 0x886E7A22, 0xE50E1B4F, 0x9F4787C3, 0x529E7D00, 0x49231C1E),
                  0x682E6FF3, 0xB20F7A99)
            == Regs(0x38CC9913, 0x3EC45CDB, 0xF5702FDB, 0x101FD28F, 0x54CB266B, 0xE50E1B4F, 0x9F4787C3, 0x529E7D00)
  {
  }

  lemma Cast6()
    ensures AsWord(0x19A4C116) == 0x19A4C116
    ensures AsWord(0x1E376C08) == 0x1E376C08
    ensures AsWord(0x2748774C) == 0x2748774C
    ensures AsWord(0x34B0BCB5) == 0x34B0BCB5
    ensures AsWord(0x391C0CB3) == 0x391C0CB3
    ensures AsWord(0x4ED8AA4A) == 0x4ED8AA4A
    ensures AsWord(0x5B9CCA4F) == 0x5B9CCA4F
    ensures AsWord(0x682E6FF3) == 0x682E6FF3
  {
  }

  lemma Reached6(m: Block)
    requires Words0(m)
    ensures Rounds(m, IV, 56)
            == Regs(0x38CC9913, 0x3EC45CDB, 0xF5702FDB, 0x101FD28F, 0x54CB266B, 0xE50E1B4F, 0x9F4787C3, 0x529E7D00)
  {
    hide Round, Rounds, Schedule, AsWord;
    MoreWords1(m); MoreWords2(m); MoreWords3(m);
    Reached5(m);
    Computed6();
    Cast6();
    NextRound(m, 48); NextRound(m, 49); NextRound(m, 50); NextRound(m, 51);
    NextRound(m, 52); NextRound(m, 53); NextRound(m, 54); NextRound(m, 55);
  }

  lemma Computed7()
    ensures Round(Regs(0x38CC9913, 0x3EC45CDB, 0xF5702FDB, 0x101FD28F, 0x54CB266B, 0xE50E1B4F, 0x9F4787C3, 0x529E7D00),
                  0x748F82EE, 0xEF57B9CD)
            == Regs(0xFCD1887B, 0x38CC9913, 0x3EC45CDB, 0xF5702FDB, 0x9B5E906C, 0x54CB266B, 0xE50E1B4F, 0x9F4787C3)
    ensures Round(Regs(0xFCD1887B, 0x38CC9913, 0x3EC45CDB, 0xF5702FDB, 0x9B5E906C, 0x54CB266B, 0xE50E1B4F, 0x9F4787C3),
                  0x78A5636F, 0xEBE6B238)
            == Regs(0xC062D46F, 0xFCD1887B, 0x38CC9913, 0x3EC45CDB, 0x7E44008E, 0x9B5E906C, 0x54CB266B, 0xE50E1B4F)
    ensures Round(Regs(0xC062D46F, 0xFCD1887B, 0x38CC9913, 0x3EC45CDB, 0x7E44008E, 0x9B5E906C, 0x54CB266B, 0xE50E1B4F),
                  0x84C87814, 0x9FE3095E)
            == Regs(0xFFB70472, 0xC062D46F, 0xFCD1887B, 0x38CC9913, 0x6D83BFC6, 0x7E44008E, 0x9B5E906C, 0x54CB266B)
    ensures Round(Regs(0xFFB70472, 0xC062D46F, 0xFCD1887B, 0x38CC9913, 0x6D83BFC6, 0x7E44008E, 0x9B5E906C, 0x54CB266B),
                  0x8CC70208, 0x78BC8D4B)
            == Regs(0xB6AE8FFF, 0xFFB70472, 0xC062D46F, 0xFCD1887B, 0xB21BAD3D, 0x6D83BFC6, 0x7E44008E, 0x9B5E906C)
    ensures Round(Regs(0xB6AE8FFF, 0xFFB70472, 0xC062D46F, 0xFCD1887B, 0xB21BAD3D, 0x6D83BFC6, 0x7E44008E, 0x9B5E906C),
                  0x90BEFFFA, 0xA43FCF15)
            == Regs(0xB85E2CE9, 0xB6AE8FFF, 0xFFB70472, 0xC062D46F, 0x961F4894, 0xB21BAD3D, 0x6D83BFC6, 0x7E44008E)
    ensures Round(Regs(0xB85E2CE9, 0xB6AE8FFF, 0xFFB70472, 0xC062D46F, 0x961F4894, 0xB21BAD3D, 0x6D83BFC6, 0x7E44008E),
                  0xA4506CEB, 0x668B2FF8)
            == Regs(0x04D24D6C, 0xB85E2CE9, 0xB6AE8FFF, 0xFFB70472, 0x948D25B6, 0x961F4894, 0xB21BAD3D, 0x6D83BFC6)
    ensures Round(Regs(0x04D24D6C, 0xB85E2CE9, 0xB6AE8FFF, 0xFFB70472, 0x948D25B6, 0x961F4894, 0xB21BAD3D, 0x6D83BFC6),
                  0xBEF9A3F7, 0xEEABA2CC)
            == Regs(0xD39A2165, 0x04D24D6C, 0xB85E2CE9, 0xB6AE8FFF, 0xFB121210, 0x948D25B6, 0x961F4894, 0xB21BAD3D)
    ensures Round(Regs(0xD39A2165, 0x04D24D6C, 0xB85E2CE9, 0xB6AE8FFF, 0xFB121210, 0x948D25B6, 0x961F4894, 0xB21BAD3D),
                  0xC67178F2, 0x12B1EDEB)
            == Regs(0x506E3058, 0xD39A2165, 0x04D24D6C, 0xB85E2CE9, 0x5EF50F24, 0xFB121210, 0x948D25B6, 0x961F4894)
  {
  }

  lemma Cast7()
    ensures AsWord(0x748F82EE) == 0x748F82EE
    ensures AsWord(0x78A5636F) == 0x78A5636F
    ensures AsWord(0x84C87814) == 0x84C87814
    ensures AsWord(0x8CC70208) == 0x8CC70208
    ensures AsWord(0x90BEFFFA) == 0x90BEFFFA
    ensures AsWord(0xA4506CEB) == 0xA4506CEB
    ensures AsWord(0xBEF9A3F7) == 0xBEF9A3F7
    ensures AsWord(0xC67178F2) == 0xC67178F2
  {
  }

  lemma Reached7(m: Block)
    requires Words0(m)
    ensures Rounds(m, IV, 64)
            == Regs(0x506E3058, 0xD39A2165, 0x04D24D6C, 0xB85E2CE9, 0x5EF50F24, 0xFB121210, 0x948D25B6, 0x961F4894)
  {
    hide Round, Rounds, Schedule, AsWord;
    MoreWords1(m); MoreWords2(m); MoreWords3(m);
    Reached6(m);
    Computed7();
    Cast7();
    NextRound(m, 56); NextRound(m, 57); NextRound(m, 58); NextRound(m, 59);
    NextRound(m, 60); NextRound(m, 61); NextRound(m, 62); NextRound(m, 63);
  }

  lemma NoRounds(m: Block)
    ensures Rounds(m, IV, 0)
            == Regs(0x6A09E667, 0xBB67AE85, 0x3C6EF372, 0xA54FF53A, 0x510E527F, 0x9B05688C, 0x1F83D9AB, 0x5BE0CD19)
  {
  }

  lemma Compressed(m: Block)
    requires Words0(m)
    ensures Compress(IV, m)
            == Regs(0xBA7816BF, 0x8F01CFEA, 0x414140DE, 0x5DAE2223, 0xB00361A3, 0x96177A9C, 0xB410FF61, 0xF20015AD)
  {
    Reached7(m);
    hide Rounds;
  }

  lemma Digested()
    ensures DigestBytes(
              Regs(0xBA7816BF, 0x8F01CFEA, 0x414140DE, 0x5DAE2223, 0xB00361A3, 0x96177A9C, 0xB410FF61, 0xF20015AD))
            == DIGEST
  {
    BytesOfDigest();
    hide BytesBE;
  }

  const DIGEST: seq<byte> :=
    [0xBA, 0x78, 0x16, 0xBF] + [0x8F, 0x01, 0xCF, 0xEA]
    + [0x41, 0x41, 0x40, 0xDE] + [0x5D, 0xAE, 0x22, 0x23]
    + [0xB0, 0x03, 0x61, 0xA3] + [0x96, 0x17, 0x7A, 0x9C]
    + [0xB4, 0x10, 0xFF, 0x61] + [0xF2, 0x00, 0x15, 0xAD]

  lemma BytesOfDigest()
    ensures BytesBE(0xBA7816BF) == [0xBA, 0x78, 0x16, 0xBF]
    ensures BytesBE(0x8F01CFEA) == [0x8F, 0x01, 0xCF, 0xEA]
    ensures BytesBE(0x414140DE) == [0x41, 0x41, 0x40, 0xDE]
    ensures BytesBE(0x5DAE2223) == [0x5D, 0xAE, 0x22, 0x23]
    ensures BytesBE(0xB00361A3) == [0xB0, 0x03, 0x61, 0xA3]
    ensures BytesBE(0x96177A9C) == [0x96, 0x17, 0x7A, 0x9C]
    ensures BytesBE(0xB410FF61) == [0xB4, 0x10, 0xFF, 0x61]
    ensures BytesBE(0xF20015AD) == [0xF2, 0x00, 0x15, 0xAD]
  {
  }

  /** The digest of "abc". */
  lemma DigestOfAbc()
    ensures Sha256(ABC) == DIGEST
  {
    Padded();
    var m := Pad(ABC);
    FirstWords(m);
    Compressed(m);
    Digested();
    OneBlock(m);
  }

  lemma OneBlock(m: Block)
    ensures Fold(Compress, IV, m) == Compress(IV, m)
  {
    assert m[..64] == m && m[64..] == [];
  }
}
