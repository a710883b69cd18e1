/** The worked example of MD5, the message "abc" (section A.5 of RFC 1321), from the block to the digest
    and its text.  The table, the rotations, the word order and the byte order take part in it. */
module Md5Example {
  import opened BlockHash
  import opened Md5Spec
  import Md5Text

  const ABC: seq<byte> := [0x61, 0x62, 0x63]

  /** Step `i` with the word that it reads, its entry of the table and its rotation. */
  function StepOn(i: nat, r: Regs, w: bv32, t: bv32, s: nat): Regs
    requires s < 32
  {
    Regs(r.d, Plus(r.b, RotL(Plus(r.a, Plus(Plus(Mix(i, r.b, r.c, r.d), w), t)), s)), r.b, r.c)
  }

  lemma NextStep(m: Block, i: nat, k: nat, t: uint32, s: nat)
    requires i < 64 && k == WordIndex(i) && t == T(i) && s == Shift(i)
    ensures Steps(m, IV, i + 1) == StepOn(i, Steps(m, IV, i), Word(m, k), AsWord(t), s)
  {
  }

  /** The padded message is a single block. */
  lemma Padded()
    ensures var m := Pad(ABC);
            && |m| == 64 && m[0] == 0x61 && m[1] == 0x62 && m[2] == 0x63 && m[3] == 0x80 && m[56] == 0x18
            && forall i :: 4 <= i < 64 && i != 56 ==> m[i] == 0
  {
    var m, l := Pad(ABC), LengthField(3);
    assert forall i :: 0 <= i < 8 ==> l[i] == ByteAt(24, i);
    assert l[0] == 0x18;
    forall i | 1 <= i < 8
      ensures l[i] == 0
    {
      assert 24 / Pow256(i) % 256 == 0;
    }
    assert m == ABC + ([0x80] + Zeros(52)) + l;
  }

  ghost predicate WordsOfAbc(m: Block) {
    Word(m, 0) == 0x80636261 && Word(m, 14) == 0x18 && forall k :: 1 <= k < 16 && k != 14 ==> Word(m, k) == 0
  }

  lemma Loaded(m: Block)
    requires m[0] == 0x61 && m[1] == 0x62 && m[2] == 0x63 && m[3] == 0x80 && m[56] == 0x18
    requires forall i :: 4 <= i < 64 && i != 56 ==> m[i] == 0
    ensures WordsOfAbc(m)
  {
  }

  lemma Computed0()
    ensures StepOn(0, Regs(0x67452301, 0xEFCDAB89, 0x98BADCFE, 0x10325476), 0x80636261, 0xD76AA478, 7)
            == Regs(0x10325476, 0xD6D117B4, 0xEFCDAB89, 0x98BADCFE)
    ensures StepOn(1, Regs(0x10325476, 0xD6D117B4, 0xEFCDAB89, 0x98BADCFE), 0x00000000, 0xE8C7B756, 12)
            == Regs(0x98BADCFE, 0x344A8432, 0xD6D117B4, 0xEFCDAB89)
    ensures StepOn(2, Regs(0x98BADCFE, 0x344A8432, 0xD6D117B4, 0xEFCDAB89), 0x00000000, 0x242070DB, 17)
            == Regs(0xEFCDAB89, 0x2F6FBD72, 0x344A8432, 0xD6D117B4)
    ensures StepOn(3, Regs(0xEFCDAB89, 0x2F6FBD72, 0x344A8432, 0xD6D117B4), 0x00000000, 0xC1BDCEEE, 22)
            == Regs(0xD6D117B4, 0x7AD956F2, 0x2F6FBD72, 0x344A8432)
    ensures StepOn(4, Regs(0xD6D117B4, 0x7AD956F2, 0x2F6FBD72, 0x344A8432), 0x00000000, 0xF57C0FAF, 7)
            == Regs(0x344A8432, 0xC73741EF, 0x7AD956F2, 0x2F6FBD72)
    ensures StepOn(5, Regs(0x344A8432, 0xC73741EF, 0x7AD956F2, 0x2F6FBD72), 0x00000000, 0x4787C62A, 12)
            == Regs(0x2F6FBD72, 0x8BAC3051, 0xC73741EF, 0x7AD956F2)
    ensures StepOn(6, Regs(0x2F6FBD72, 0x8BAC3051, 0xC73741EF, 0x7AD956F2), 0x00000000, 0xA8304613, 17)
            == Regs(0x7AD956F2, 0x207DC67B, 0x8BAC3051, 0xC73741EF)
    ensures StepOn(7, Regs(0x7AD956F2, 0x207DC67B, 0x8BAC3051, 0xC73741EF), 0x00000000, 0xFD469501, 22)
            == Regs(0xC73741EF, 0x928D99F6, 0x207DC67B, 0x8BAC3051)
  {
  }

  lemma Cast0()
    ensures AsWord(0xD76AA478) == 0xD76AA478
    ensures AsWord(0xE8C7B756) == 0xE8C7B756
    ensures AsWord(0x242070DB) == 0x242070DB
    ensures AsWord(0xC1BDCEEE) == 0xC1BDCEEE
    ensures AsWord(0xF57C0FAF) == 0xF57C0FAF
    ensures AsWord(0x4787C62A) == 0x4787C62A
    ensures AsWord(0xA8304613) == 0xA8304613
    ensures AsWord(0xFD469501) == 0xFD469501
  {
  }

  lemma Reached0(m: Block)
    requires WordsOfAbc(m)
    ensures Steps(m, IV, 8) == Regs(0xC73741EF, 0x928D99F6, 0x207DC67B, 0x8BAC3051)
  {
    Computed0();
    Cast0();
    assert Steps(m, IV, 0) == IV;
    hide StepOn, Steps, Word, AsWord;
    NextStep(m, 0, 0, 0xD76AA478, 7); NextStep(m, 1, 1, 0xE8C7B756, 12);
    NextStep(m, 2, 2, 0x242070DB, 17); NextStep(m, 3, 3, 0xC1BDCEEE, 22);
    NextStep(m, 4, 4, 0xF57C0FAF, 7); NextStep(m, 5, 5, 0x4787C62A, 12);
    NextStep(m, 6, 6, 0xA8304613, 17); NextStep(m, 7, 7, 0xFD469501, 22);
  }

  lemma Computed1()
    ensures StepOn(8, Regs(0xC73741EF, 0x928D99F6, 0x207DC67B, 0x8BAC3051), 0x00000000, 0x698098D8, 7)
            == Regs(0x8BAC3051, 0x854B3712, 0x928D99F6, 0x207DC67B)
    ensures StepOn(9, Regs(0x8BAC3051, 0x854B3712, 0x928D99F6, 0x207DC67B), 0x00000000, 0x8B44F7AF, 12)
            == Regs(0x207DC67B, 0x74E2F284, 0x854B3712, 0x928D99F6)
    ensures StepOn(10, Regs(0x207DC67B, 0x74E2F284, 0x854B3712, 0x928D99F6), 0x00000000, 0xFFFF5BB1, 17)
            == Regs(0x928D99F6, 0x3020401C, 0x74E2F284, 0x854B3712)
    ensures StepOn(11, Regs(0x928D99F6, 0x3020401C, 0x74E2F284, 0x854B3712), 0x00000000, 0x895CD7BE, 22)
            == Regs(0x854B3712, 0x5ED49596, 0x3020401C, 0x74E2F284)
    ensures StepOn(12, Regs(0x854B3712, 0x5ED49596, 0x3020401C, 0x74E2F284), 0x00000000, 0x6B901122, 7)
            == Regs(0x74E2F284, 0xDDA9B9A6, 0x5ED49596, 0x3020401C)
    ensures StepOn(13, Regs(0x74E2F284, 0xDDA9B9A6, 0x5ED49596, 0x3020401C), 0x00000000, 0xFD987193, 12)
            == Regs(0x3020401C, 0xA1051895, 0xDDA9B9A6, 0x5ED49596)
    ensures StepOn(14, Regs(0x3020401C, 0xA1051895, 0xDDA9B9A6, 0x5ED49596), 0x00000018, 0xA679438E, 17)
            == Regs(0x5ED49596, 0xE396856B, 0xA1051895, 0xDDA9B9A6)
    ensures StepOn(15, Regs(0x5ED49596, 0xE396856B, 0xA1051895, 0xDDA9B9A6), 0x00000000, 0x49B40821, 22)
            == Regs(0xDDA9B9A6, 0x72AFF2E0, 0xE396856B, 0xA1051895)
  {
  }

  lemma Cast1()
    ensures AsWord(0x698098D8) == 0x698098D8
    ensures AsWord(0x8B44F7AF) == 0x8B44F7AF
    ensures AsWord(0xFFFF5BB1) == 0xFFFF5BB1
    ensures AsWord(0x895CD7BE) == 0x895CD7BE
    ensures AsWord(0x6B901122) == 0x6B901122
    ensures AsWord(0xFD987193) == 0xFD987193
    ensures AsWord(0xA679438E) == 0xA679438E
    ensures AsWord(0x49B40821) == 0x49B40821
  {
  }

  lemma Reached1(m: Block)
    requires WordsOfAbc(m)
    ensures Steps(m, IV, 16) == Regs(0xDDA9B9A6, 0x72AFF2E0, 0xE396856B, 0xA1051895)
  {
    hide StepOn, Steps, Word, AsWord;
    Reached0(m);
    Computed1();
    Cast1();
    NextStep(m, 8, 8, 0x698098D8, 7); NextStep(m, 9, 9, 0x8B44F7AF, 12);
    NextStep(m, 10, 10, 0xFFFF5BB1, 17); NextStep(m, 11, 11, 0x895CD7BE, 22);
    NextStep(m, 12, 12, 0x6B901122, 7); NextStep(m, 13, 13, 0xFD987193, 12);
    NextStep(m, 14, 14, 0xA679438E, 17); NextStep(m, 15, 15, 0x49B40821, 22);
  }

  lemma Computed2()
    ensures StepOn(16, Regs(0xDDA9B9A6, 0x72AFF2E0, 0xE396856B, 0xA1051895), 0x00000000, 0xF61E2562, 5)
            == Regs(0xA1051895, 0x3E9E9126, 0x72AFF2E0, 0xE396856B)
    ensures StepOn(17, Regs(0xA1051895, 0x3E9E9126, 0x72AFF2E0, 0xE396856B), 0x00000000, 0xC040B340, 9)
            == Regs(0xE396856B, 0x4A1D804E, 0x3E9E9126, 0x72AFF2E0)
    ensures StepOn(18, Regs(0xE396856B, 0x4A1D804E, 0x3E9E9126, 0x72AFF2E0), 0x00000000, 0x265E5A51, 14)
            == Regs(0x72AFF2E0, 0xE25E1652, 0x4A1D804E, 0x3E9E9126)
    ensures StepOn(19, Regs(0x72AFF2E0, 0xE25E1652, 0x4A1D804E, 0x3E9E9126), 0x80636261, 0xE9B6C7AA, 20)
            == Regs(0x3E9E9126, 0xB5B204E4, 0xE25E1652, 0x4A1D804E)
    ensures StepOn(20, Regs(0x3E9E9126, 0xB5B204E4, 0xE25E1652, 0x4A1D804E), 0x00000000, 0xD62F105D, 5)
            == Regs(0x4A1D804E, 0x59A8FFDA, 0xB5B204E4, 0xE25E1652)
    ensures StepOn(21, Regs(0x4A1D804E, 0x59A8FFDA, 0xB5B204E4, 0xE25E1652), 0x00000000, 0x02441453, 9)
            == Regs(0xE25E1652, 0x6D002F1E, 0x59A8FFDA, 0xB5B204E4)
    ensures StepOn(22, Regs(0xE25E1652, 0x6D002F1E, 0x59A8FFDA, 0xB5B204E4), 0x00000000, 0xD8A1E681, 14)
            == Regs(0xB5B204E4, 0xABFC7920, 0x6D002F1E, 0x59A8FFDA)
    ensures StepOn(23, Regs(0xB5B204E4, 0xABFC7920, 0x6D002F1E, 0x59A8FFDA), 0x00000000, 0xE7D3FBC8, 20)
            == Regs(0x59A8FFDA, 0x47092C07, 0xABFC7920, 0x6D002F1E)
  {
  }

  lemma Cast2()
    ensures AsWord(0xF61E2562) == 0xF61E2562
    ensures AsWord(0xC040B340) == 0xC040B340
    ensures AsWord(0x265E5A51) == 0x265E5A51
    ensures AsWord(0xE9B6C7AA) == 0xE9B6C7AA
    ensures AsWord(0xD62F105D) == 0xD62F105D
    ensures AsWord(0x02441453) == 0x02441453
    ensures AsWord(0xD8A1E681) == 0xD8A1E681
    ensures AsWord(0xE7D3FBC8) == 0xE7D3FBC8
  {
  }

  lemma Reached2(m: Block)
    requires WordsOfAbc(m)
    ensures Steps(m, IV, 24) == Regs(0x59A8FFDA, 0x47092C07, 0xABFC7920, 0x6D002F1E)
  {
    hide StepOn, Steps, Word, AsWord;
    Reached1(m);
    Computed2();
    Cast2();
    NextStep(m, 16, 1, 0xF61E2562, 5); NextStep(m, 17, 6, 0xC040B340, 9);
    NextStep(m, 18, 11, 0x265E5A51, 14); NextStep(m, 19, 0, 0xE9B6C7AA, 20);
    NextStep(m, 20, 5, 0xD62F105D, 5); NextStep(m, 21, 10, 0x02441453, 9);
    NextStep(m, 22, 15, 0xD8A1E681, 14); NextStep(m, 23, 4, 0xE7D3FBC8, 20);
  }

  lemma Computed3()
    ensures StepOn(24, Regs(0x59A8FFDA, 0x47092C07, 0xABFC7920, 0x6D002F1E), 0x00000000, 0x21E1CDE6, 5)
            == Regs(0x6D002F1E, 0xB7F268CF, 0x47092C07, 0xABFC7920)
    ensures StepOn(25, Regs(0x6D002F1E, 0xB7F268CF, 0x47092C07, 0xABFC7920), 0x00000018, 0xC33707D6, 9)
            == Regs(0xABFC7920, 0x09388EFF, 0xB7F268CF, 0x47092C07)
    ensures StepOn(26, Regs(0xABFC7920, 0x09388EFF, 0xB7F268CF, 0x47092C07), 0x00000000, 0xF4D50D87, 14)
            == Regs(0x47092C07, 0xFE1623B1, 0x09388EFF, 0xB7F268CF)
    ensures StepOn(27, Regs(0x47092C07, 0xFE1623B1, 0x09388EFF, 0xB7F268CF), 0x00000000, 0x455A14ED, 20)
            == Regs(0xB7F268CF, 0x786ACB8F, 0xFE1623B1, 0x09388EFF)
    ensures StepOn(28, Regs(0xB7F268CF, 0x786ACB8F, 0xFE1623B1, 0x09388EFF), 0x00000000, 0xA9E3E905, 5)
            == Regs(0x09388EFF, 0x790A77FB, 0x786ACB8F, 0xFE1623B1)
    ensures StepOn(29, Regs(0x09388EFF, 0x790A77FB, 0x786ACB8F, 0xFE1623B1), 0x00000000, 0xFCEFA3F8, 9)
            == Regs(0xFE1623B1, 0x9F47E4F8, 0x790A77FB, 0x786ACB8F)
    ensures StepOn(30, Regs(0xFE1623B1, 0x9F47E4F8, 0x790A77FB, 0x786ACB8F), 0x00000000, 0x676F02D9, 14)
            == Regs(0x786ACB8F, 0xA62884AA, 0x9F47E4F8, 0x790A77FB)
    ensures StepOn(31, Regs(0x786ACB8F, 0xA62884AA, 0x9F47E4F8, 0x790A77FB), 0x00000000, 0x8D2A4C8A, 20)
            == Regs(0x790A77FB, 0x726342D3, 0xA62884AA, 0x9F47E4F8)
  {
  }

  lemma Cast3()
    ensures AsWord(0x21E1CDE6) == 0x21E1CDE6
    ensures AsWord(0xC33707D6) == 0xC33707D6
    ensures AsWord(0xF4D50D87) == 0xF4D50D87
    ensures AsWord(0x455A14ED) == 0x455A14ED
    ensures AsWord(0xA9E3E905) == 0xA9E3E905
    ensures AsWord(0xFCEFA3F8) == 0xFCEFA3F8
    ensures AsWord(0x676F02D9) == 0x676F02D9
    ensures AsWord(0x8D2A4C8A) == 0x8D2A4C8A
  {
  }

  lemma Reached3(m: Block)
    requires WordsOfAbc(m)
    ensures Steps(m, IV, 32) == Regs(0x790A77FB, 0x726342D3, 0xA62884AA, 0x9F47E4F8)
  {
    hide StepOn, Steps, Word, AsWord;
    Reached2(m);
    Computed3();
    Cast3();
    NextStep(m, 24, 9, 0x21E1CDE6, 5); NextStep(m, 25, 14, 0xC33707D6, 9);
    NextStep(m, 26, 3, 0xF4D50D87, 14); NextStep(m, 27, 8, 0x455A14ED, 20);
    NextStep(m, 28, 13, 0xA9E3E905, 5); NextStep(m, 29, 2, 0xFCEFA3F8, 9);
    NextStep(m, 30, 7, 0x676F02D9, 14); NextStep(m, 31, 12, 0x8D2A4C8A, 20);
  }

  lemma Computed4()
    ensures StepOn(32, Regs(0x790A77FB, 0x726342D3, 0xA62884AA, 0x9F47E4F8), 0x00000000, 0xFFFA3942, 4)
            == Regs(0x9F47E4F8, 0xB3707EBF, 0x726342D3, 0xA62884AA)
    ensures StepOn(33, Regs(0x9F47E4F8, 0xB3707EBF, 0x726342D3, 0xA62884AA), 0x00000000, 0x8771F681, 11)
            == Regs(0xA62884AA, 0x60127B2E, 0xB3707EBF, 0x726342D3)
    ensures StepOn(34, Regs(0xA62884AA, 0x60127B2E, 0xB3707EBF, 0x726342D3), 0x00000000, 0x6D9D6122, 16)
            == Regs(0x726342D3, 0x8D212FF5, 0x60127B2E, 0xB3707EBF)
    ensures StepOn(35, Regs(0x726342D3, 0x8D212FF5, 0x60127B2E, 0xB3707EBF), 0x00000018, 0xFDE5380C, 23)
            == Regs(0xB3707EBF, 0x3B0875C7, 0x8D212FF5, 0x60127B2E)
    ensures StepOn(36, Regs(0xB3707EBF, 0x3B0875C7, 0x8D212FF5, 0x60127B2E), 0x00000000, 0xA4BEEA44, 4)
            == Regs(0x60127B2E, 0x21B117B9, 0x3B0875C7, 0x8D212FF5)
    ensures StepOn(37, Regs(0x60127B2E, 0x21B117B9, 0x3B0875C7, 0x8D212FF5), 0x00000000, 0x4BDECFA9, 11)
            == Regs(0x8D212FF5, 0x6E7429D5, 0x21B117B9, 0x3B0875C7)
    ensures StepOn(38, Regs(0x8D212FF5, 0x6E7429D5, 0x21B117B9, 0x3B0875C7), 0x00000000, 0xF6BB4B60, 16)
            == Regs(0x3B0875C7, 0x3575227E, 0x6E7429D5, 0x21B117B9)
    ensures StepOn(39, Regs(0x3B0875C7, 0x3575227E, 0x6E7429D5, 0x21B117B9), 0x00000000, 0xBEBFBC70, 23)
            == Regs(0x21B117B9, 0x5A2F5EA5, 0x3575227E, 0x6E7429D5)
  {
  }

  lemma Cast4()
    ensures AsWord(0xFFFA3942) == 0xFFFA3942
    ensures AsWord(0x8771F681) == 0x8771F681
    ensures AsWord(0x6D9D6122) == 0x6D9D6122
    ensures AsWord(0xFDE5380C) == 0xFDE5380C
    ensures AsWord(0xA4BEEA44) == 0xA4BEEA44
    ensures AsWord(0x4BDECFA9) == 0x4BDECFA9
    ensures AsWord(0xF6BB4B60) == 0xF6BB4B60
    ensures AsWord(0xBEBFBC70) == 0xBEBFBC70
  {
  }

  lemma Reached4(m: Block)
    requires WordsOfAbc(m)
    ensures Steps(m, IV, 40) == Regs(0x21B117B9, 0x5A2F5EA5, 0x3575227E, 0x6E7429D5)
  {
    hide StepOn, Steps, Word, AsWord;
    Reached3(m);
    Computed4();
    Cast4();
    NextStep(m, 32, 5, 0xFFFA3942, 4); NextStep(m, 33, 8, 0x8771F681, 11);
    NextStep(m, 34, 11, 0x6D9D6122, 16); NextStep(m, 35, 14, 0xFDE5380C, 23);
    NextStep(m, 36, 1, 0xA4BEEA44, 4); NextStep(m, 37, 4, 0x4BDECFA9, 11);
    NextStep(m, 38, 7, 0xF6BB4B60, 16); NextStep(m, 39, 10, 0xBEBFBC70, 23);
  }

  lemma Computed5()
    ensures StepOn(40, Regs(0x21B117B9, 0x5A2F5EA5, 0x3575227E, 0x6E7429D5), 0x00000000, 0x289B7EC6, 4)
            == Regs(0x6E7429D5, 0x11DE1779, 0x5A2F5EA5, 0x3575227E)
    ensures StepOn(41, Regs(0x6E7429D5, 0x11DE1779, 0x5A2F5EA5, 0x3575227E), 0x80636261, 0xEAA127FA, 11)
            == Regs(0x3575227E, 0xFADCAA38, 0x11DE1779, 0x5A2F5EA5)
    ensures StepOn(42, Regs(0x3575227E, 0xFADCAA38, 0x11DE1779, 0x5A2F5EA5), 0x00000000, 0xD4EF3085, 16)
            == Regs(0x5A2F5EA5, 0x31C465CA, 0xFADCAA38, 0x11DE1779)
    ensures StepOn(43, Regs(0x5A2F5EA5, 0x31C465CA, 0xFADCAA38, 0x11DE1779), 0x00000000, 0x04881D05, 23)
            == Regs(0x11DE1779, 0x4C6124F4, 0x31C465CA, 0xFADCAA38)
    ensures StepOn(44, Regs(0x11DE1779, 0x4C6124F4, 0x31C465CA, 0xFADCAA38), 0x00000000, 0xD9D4D039, 4)
            == Regs(0xFADCAA38, 0x7F2E507B, 0x4C6124F4, 0x31C465CA)
    ensures StepOn(45, Regs(0xFADCAA38, 0x7F2E507B, 0x4C6124F4, 0x31C465CA), 0x00000000, 0xE6DB99E5, 11)
            == Regs(0x31C465CA, 0x99D9679D, 0x7F2E507B, 0x4C6124F4)
    ensures StepOn(46, Regs(0x31C465CA, 0x99D9679D, 0x7F2E507B, 0x4C6124F4), 0x00000000, 0x1FA27CF8, 16)
            == Regs(0x4C6124F4, 0x8FAE6399, 0x99D9679D, 0x7F2E507B)
    ensures StepOn(47, Regs(0x4C6124F4, 0x8FAE6399, 0x99D9679D, 0x7F2E507B), 0x00000000, 0xC4AC5665, 23)
            == Regs(0x7F2E507B, 0x7BEB9700, 0x8FAE6399, 0x99D9679D)
  {
  }

  lemma Cast5()
    ensures AsWord(0x289B7EC6) == 0x289B7EC6
    ensures AsWord(0xEAA127FA) == 0xEAA127FA
    ensures AsWord(0xD4EF3085) == 0xD4EF3085
    ensures AsWord(0x04881D05) == 0x04881D05
    ensures AsWord(0xD9D4D039) == 0xD9D4D039
    ensures AsWord(0xE6DB99E5) == 0xE6DB99E5
    ensures AsWord(0x1FA27CF8) == 0x1FA27CF8
    ensures AsWord(0xC4AC5665) == 0xC4AC5665
  {
  }

  lemma Reached5(m: Block)
    requires WordsOfAbc(m)
    ensures Steps(m, IV, 48) == Regs(0x7F2E507B, 0x7BEB9700, 0x8FAE6399, 0x99D9679D)
  {
    hide StepOn, Steps, Word, AsWord;
    Reached4(m);
    Computed5();
    Cast5();
    NextStep(m, 40, 13, 0x289B7EC6, 4); NextStep(m, 41, 0, 0xEAA127FA, 11);
    NextStep(m, 42, 3, 0xD4EF3085, 16); NextStep(m, 43, 6, 0x04881D05, 23);
    NextStep(m, 44, 9, 0xD9D4D039, 4); NextStep(m, 45, 12, 0xE6DB99E5, 11);
    NextStep(m, 46, 15, 0x1FA27CF8, 16); NextStep(m, 47, 2, 0xC4AC5665, 23);
  }

  lemma Computed6()
    ensures StepOn(48, Regs(0x7F2E507B, 0x7BEB9700, 0x8FAE6399, 0x99D9679D), 0x80636261, 0xF4292244, 6)
            == Regs(0x99D9679D, 0x7B201DF8, 0x7BEB9700, 0x8FAE6399)
    ensures StepOn(49, Regs(0x99D9679D, 0x7B201DF8, 0x7BEB9700, 0x8FAE6399), 0x00000000, 0x432AFF97, 10)
            == Regs(0x8FAE6399, 0xF4E8E96E, 0x7B201DF8, 0x7BEB9700)
    ensures StepOn(50, Regs(0x8FAE6399, 0xF4E8E96E, 0x7B201DF8, 0x7BEB9700), 0x00000018, 0xAB9423A7, 15)
            == Regs(0x7BEB9700, 0xB298CEFD, 0xF4E8E96E, 0x7B201DF8)
    ensures StepOn(51, Regs(0x7BEB9700, 0xB298CEFD, 0xF4E8E96E, 0x7B201DF8), 0x00000000, 0xFC93A039, 21)
            == Regs(0x7B201DF8, 0x8BF025C4, 0xB298CEFD, 0xF4E8E96E)
    ensures StepOn(52, Regs(0x7B201DF8, 0x8BF025C4, 0xB298CEFD, 0xF4E8E96E), 0x00000000, 0x655B59C3, 6)
            == Regs(0xF4E8E96E, 0x06CC5E8A, 0x8BF025C4, 0xB298CEFD)
    ensures StepOn(53, Regs(0xF4E8E96E, 0x06CC5E8A, 0x8BF025C4, 0xB298CEFD), 0x00000000, 0x8F0CCC92, 10)
            == Regs(0xB298CEFD, 0x5B0D97AA, 0x06CC5E8A, 0x8BF025C4)
    ensures StepOn(54, Regs(0xB298CEFD, 0x5B0D97AA, 0x06CC5E8A, 0x8BF025C4), 0x00000000, 0xFFEFF47D, 15)
            == Regs(0x8BF025C4, 0x7D632DD0, 0x5B0D97AA, 0x06CC5E8A)
    ensures StepOn(55, Regs(0x8BF025C4, 0x7D632DD0, 0x5B0D97AA, 0x06CC5E8A), 0x00000000, 0x85845DD1, 21)
            == Regs(0x06CC5E8A, 0x3BFA2C27, 0x7D632DD0, 0x5B0D97AA)
  {
  }

  lemma Cast6()
    ensures AsWord(0xF4292244) == 0xF4292244
    ensures AsWord(0x432AFF97) == 0x432AFF97
    ensures AsWord(0xAB9423A7) == 0xAB9423A7
    ensures AsWord(0xFC93A039) == 0xFC93A039
    ensures AsWord(0x655B59C3) == 0x655B59C3
    ensures AsWord(0x8F0CCC92) == 0x8F0CCC92
    ensures AsWord(0xFFEFF47D) == 0xFFEFF47D
    ensures AsWord(0x85845DD1) == 0x85845DD1
  {
  }

  lemma Reached6(m: Block)
    requires WordsOfAbc(m)
    ensures Steps(m, IV, 56) == Regs(0x06CC5E8A, 0x3BFA2C27, 0x7D632DD0, 0x5B0D97AA)
  {
    hide StepOn, Steps, Word, AsWord;
    Reached5(m);
    Computed6();
    Cast6();
    NextStep(m, 48, 0, 0xF4292244, 6); NextStep(m, 49, 7, 0x432AFF97, 10);
    NextStep(m, 50, 14, 0xAB9423A7, 15); NextStep(m, 51, 5, 0xFC93A039, 21);
    NextStep(m, 52, 12, 0x655B59C3, 6); NextStep(m, 53, 3, 0x8F0CCC92, 10);
    NextStep(m, 54, 10, 0xFFEFF47D, 15); NextStep(m, 55, 1, 0x85845DD1, 21);
  }

  lemma Computed7()
    ensures StepOn(56, Regs(0x06CC5E8A, 0x3BFA2C27, 0x7D632DD0, 0x5B0D97AA), 0x00000000, 0x6FA87E4F, 6)
            == Regs(0x5B0D97AA, 0x7F81CC35, 0x3BFA2C27, 0x7D632DD0)
    ensures StepOn(57, Regs(0x5B0D97AA, 0x7F81CC35, 0x3BFA2C27, 0x7D632DD0), 0x00000000, 0xFE2CE6E0, 10)
            == Regs(0x7D632DD0, 0x094454AB, 0x7F81CC35, 0x3BFA2C27)
    ensures StepOn(58, Regs(0x7D632DD0, 0x094454AB, 0x7F81CC35, 0x3BFA2C27), 0x00000000, 0xA3014314, 15)
            == Regs(0x3BFA2C27, 0x4F9DBE3F, 0x094454AB, 0x7F81CC35)
    ensures StepOn(59, Regs(0x3BFA2C27, 0x4F9DBE3F, 0x094454AB, 0x7F81CC35), 0x00000000, 0x4E0811A1, 21)
            == Regs(0x7F81CC35, 0x7327D604, 0x4F9DBE3F, 0x094454AB)
    ensures StepOn(60, Regs(0x7F81CC35, 0x7327D604, 0x4F9DBE3F, 0x094454AB), 0x00000000, 0xF7537E82, 6)
            == Regs(0x094454AB, 0x310ADE8F, 0x7327D604, 0x4F9DBE3F)
    ensures StepOn(61, Regs(0x094454AB, 0x310ADE8F, 0x7327D604, 0x4F9DBE3F), 0x00000000, 0xBD3AF235, 10)
            == Regs(0x4F9DBE3F, 0x624D8CB2, 0x310ADE8F, 0x7327D604)
    ensures StepOn(62, Regs(0x4F9DBE3F, 0x624D8CB2, 0x310ADE8F, 0x7327D604), 0x00000000, 0x2AD7D2BB, 15)
            == Regs(0x7327D604, 0xE484B9D8, 0x624D8CB2, 0x310ADE8F)
    ensures StepOn(63, Regs(0x7327D604, 0xE484B9D8, 0x624D8CB2, 0x310ADE8F), 0x00000000, 0xEB86D391, 21)
            == Regs(0x310ADE8F, 0xC08226B3, 0xE484B9D8, 0x624D8CB2)
  {
  }

  lemma Cast7()
    ensures AsWord(0x6FA87E4F) == 0x6FA87E4F
    ensures AsWord(0xFE2CE6E0) == 0xFE2CE6E0
    ensures AsWord(0xA3014314) == 0xA3014314
    ensures AsWord(0x4E0811A1) == 0x4E0811A1
    ensures AsWord(0xF7537E82) == 0xF7537E82
    ensures AsWord(0xBD3AF235) == 0xBD3AF235
    ensures AsWord(0x2AD7D2BB) == 0x2AD7D2BB
    ensures AsWord(0xEB86D391) == 0xEB86D391
  {
  }

  lemma Reached7(m: Block)
    requires WordsOfAbc(m)
    ensures Steps(m, IV, 64) == Regs(0x310ADE8F, 0xC08226B3, 0xE484B9D8, 0x624D8CB2)
  {
    hide StepOn, Steps, Word, AsWord;
    Reached6(m);
    Computed7();
    Cast7();
    NextStep(m, 56, 8, 0x6FA87E4F, 6); NextStep(m, 57, 15, 0xFE2CE6E0, 10);
    NextStep(m, 58, 6, 0xA3014314, 15); NextStep(m, 59, 13, 0x4E0811A1, 21);
    NextStep(m, 60, 4, 0xF7537E82, 6); NextStep(m, 61, 11, 0xBD3AF235, 10);
    NextStep(m, 62, 2, 0x2AD7D2BB, 15); NextStep(m, 63, 9, 0xEB86D391, 21);
  }

  lemma Compressed(m: Block)
    requires WordsOfAbc(m)
    ensures Compress(IV, m) == Regs(0x98500190, 0xB04FD23C, 0x7D3F96D6, 0x727FE128)
  {
    Reached7(m);
    hide Steps;
  }

  const DIGEST: seq<byte> :=
    [0x90, 0x01, 0x50, 0x98] + [0x3C, 0xD2, 0x4F, 0xB0]
    + [0xD6, 0x96, 0x3F, 0x7D] + [0x28, 0xE1, 0x7F, 0x72]

  lemma BytesOfDigest()
    ensures BytesLE(0x98500190) == [0x90, 0x01, 0x50, 0x98]
    ensures BytesLE(0xB04FD23C) == [0x3C, 0xD2, 0x4F, 0xB0]
    ensures BytesLE(0x7D3F96D6) == [0xD6, 0x96, 0x3F, 0x7D]
    ensures BytesLE(0x727FE128) == [0x28, 0xE1, 0x7F, 0x72]
  {
  }

  lemma Digested()
    ensures DigestBytes(Regs(0x98500190, 0xB04FD23C, 0x7D3F96D6, 0x727FE128)) == DIGEST
  {
    BytesOfDigest();
    hide BytesLE;
  }

  /** The digest of "abc". */
  lemma DigestOfAbc()
    ensures Md5(ABC) == DIGEST
  {
    Padded();
    var m := Pad(ABC);
    Loaded(m);
    Compressed(m);
    Digested();
    OneBlock(m);
  }

  lemma OneBlock(m: Block)
    ensures Fold(Compress, IV, m) == Compress(IV, m)
  {
    assert m[..64] == m && m[64..] == [];
  }

  lemma Longer(d: seq<byte>, k: nat)
    requires k < |d|
    ensures Md5Text.Hex(d[..k + 1]) == Md5Text.Hex(d[..k]) + Md5Text.HexByte(d[k])
  {
    Md5Text.HexExtends(d[..k + 1]);
    assert d[..k + 1][..k] == d[..k];
  }

  lemma NoText()
    ensures Md5Text.Hex([]) == ""
  {
  }

  lemma Text0()
    ensures Md5Text.Hex(DIGEST[..4]) == "90015098"
  {
    hide Md5Text.HexByte, Md5Text.Hex;
    Digits0();
    assert DIGEST[..0] == [];
    NoText();
    Longer(DIGEST, 0); Longer(DIGEST, 1); Longer(DIGEST, 2); Longer(DIGEST, 3);
    assert "90" + "01" + "50" + "98" == "90015098";
  }

  lemma Text1()
    requires Md5Text.Hex(DIGEST[..4]) == "90015098"
    ensures Md5Text.Hex(DIGEST[..8]) == "90015098" + "3cd24fb0"
  {
    hide Md5Text.HexByte, Md5Text.Hex;
    Digits0();
    Longer(DIGEST, 4); Longer(DIGEST, 5); Longer(DIGEST, 6); Longer(DIGEST, 7);
    assert "3c" + "d2" + "4f" + "b0" == "3cd24fb0";
  }

  lemma Text2()
    requires Md5Text.Hex(DIGEST[..8]) == "90015098" + "3cd24fb0"
    ensures Md5Text.Hex(DIGEST[..12]) == "90015098" + "3cd24fb0" + "d6963f7d"
  {
    hide Md5Text.HexByte, Md5Text.Hex;
    Digits1();
    Longer(DIGEST, 8); Longer(DIGEST, 9); Longer(DIGEST, 10); Longer(DIGEST, 11);
    assert "d6" + "96" + "3f" + "7d" == "d6963f7d";
  }

  lemma Text3()
    requires Md5Text.Hex(DIGEST[..12]) == "90015098" + "3cd24fb0" + "d6963f7d"
    ensures Md5Text.Hex(DIGEST[..16]) == "90015098" + "3cd24fb0" + "d6963f7d" + "28e17f72"
  {
    hide Md5Text.HexByte, Md5Text.Hex;
    Digits1();
    Longer(DIGEST, 12); Longer(DIGEST, 13); Longer(DIGEST, 14); Longer(DIGEST, 15);
    assert "28" + "e1" + "7f" + "72" == "28e17f72";
  }

  /** And its text. */
  lemma TextOfAbc()
    ensures Md5Text.Hex(Md5(ABC)) == "90015098" + "3cd24fb0" + "d6963f7d" + "28e17f72"
  {
    DigestOfAbc();
    hide Md5, Md5Text.HexByte, Md5Text.Hex;
    Text0();
    Text1();
    Text2();
    Text3();
    assert DIGEST[..16] == DIGEST;
  }

  lemma Digits0()
    ensures Md5Text.HexByte(0x90) == "90"
    ensures Md5Text.HexByte(0x01) == "01"
    ensures Md5Text.HexByte(0x50) == "50"
    ensures Md5Text.HexByte(0x98) == "98"
    ensures Md5Text.HexByte(0x3C) == "3c"
    ensures Md5Text.HexByte(0xD2) == "d2"
    ensures Md5Text.HexByte(0x4F) == "4f"
    ensures Md5Text.HexByte(0xB0) == "b0"
  {
  }

  lemma Digits1()
    ensures Md5Text.HexByte(0xD6) == "d6"
    ensures Md5Text.HexByte(0x96) == "96"
    ensures Md5Text.HexByte(0x3F) == "3f"
    ensures Md5Text.HexByte(0x7D) == "7d"
    ensures Md5Text.HexByte(0x28) == "28"
    ensures Md5Text.HexByte(0xE1) == "e1"
    ensures Md5Text.HexByte(0x7F) == "7f"
    ensures Md5Text.HexByte(0x72) == "72"
  {
  }
}
