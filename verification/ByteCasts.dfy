/** Conversions between integers and bit vectors lose nothing in the range of a byte. */
module ByteCasts {
  lemma BytesDifferAsNumbers(x: bv8, y: bv8)
    requires x as int == y as int
    ensures x == y
  {
    BackAgain(x);
    BackAgain(y);
  }

  lemma ByteKeepsDigit(x: nat)
    requires x < 256
    ensures (x as bv8) as int == x
  {
    var b := ByteOf(x);
    BackAgain(b);
  }

  lemma BackAgain(b: bv8)
    ensures (b as int) as bv8 == b
  {
  }

  /** Counting up from zero reaches every number below 256. */
  lemma {:induction false} ByteOf(x: nat) returns (b: bv8)
    requires x < 256
    ensures b as int == x
  {
    if x == 0 {
      b := 0;
    } else {
      b := ByteOf(x - 1);
      NextByte(b);
      b := b + 1;
    }
  }

  lemma NextByte(b: bv8)
    requires b != 255
    ensures (b + 1) as int == b as int + 1
  {
  }
}
