/** The hexadecimal form in which digests travel and are compared. */
module Md5Text {
  import opened BlockHash
  import opened ByteCasts
  import opened Md5Spec
  import opened Md5Engine

  const DIGITS := "0123456789abcdef"

  /** Two lower-case digits a byte, high nibble first. */
  function Hex(digest: seq<byte>): (text: string)
    ensures |text| == 2 * |digest|
  {
    if digest == [] then [] else Hex(digest[..|digest| - 1]) + HexByte(digest[|digest| - 1])
  }

  function HexByte(b: byte): (text: string)
    ensures |text| == 2
  {
    var n := b as int;
    [DIGITS[n / 16], DIGITS[n % 16]]
  }

  /** The conversion of the low nibble of a byte, as the source computes it. */
  method Hb2Hex(hb: nat) returns (c: char)
    ensures c == DIGITS[hb % 16]
  {
    var h := hb % 16;
    c := if h < 10 then ('0' as int + h) as char else (h - 10 + 'a' as int) as char;
    DigitsInOrder(h);
  }

  lemma DigitsInOrder(h: nat)
    requires h < 16
    ensures DIGITS[h] as int == if h < 10 then '0' as int + h else h - 10 + 'a' as int
  {
  }

  /** Finishes the digest and writes its text form, terminated by a NUL. */
  method FinishHb2Hex(ctx: Context, outputStr: array<char>)
    requires ctx.Valid() && outputStr.Length >= 33
    requires outputStr as object != ctx.state && outputStr as object != ctx.buffer  // their types differ
    modifies ctx, ctx.state, ctx.buffer, outputStr
    ensures outputStr[..] ==
              Hex(DigestBytes(Fold(Compress, IV, PadAs(old(ctx.absorbed), old(ctx.counted))))) + ['\0']
                  + old(outputStr[33..])
    ensures old(ctx.counted) % TWO_61 == |old(ctx.absorbed)| % TWO_61 ==>
              outputStr[..32] == Hex(Md5(old(ctx.absorbed)))
    ensures ReadsBack(outputStr[..32], DigestBytes(Fold(Compress, IV, PadAs(old(ctx.absorbed), old(ctx.counted)))))
  {
    hide Hex, Compress, Fold, PadAs, DigestBytes, Context.Valid, ReadsBack;
    var out := new byte[16](_ => 0);
    ghost var rest := outputStr[33..];
    ctx.Finish(out);
    ghost var tail := outputStr[32..];
    assert outputStr[33..] == rest;
    assert tail[1..] == outputStr[33..];
    WriteHex(out, outputStr);
    assert outputStr[33..] == outputStr[32..][1..];
    outputStr[32] := '\0';
    assert out[..] == out[..16];
    assert outputStr[33..] == rest;
    assert outputStr[..] == outputStr[..32] + ['\0'] + rest;
    AllReadsBack(out[..16]);
  }

  method WriteHex(out: array<byte>, outputStr: array<char>)
    requires out.Length == 16 && outputStr.Length >= 33
    modifies outputStr
    ensures outputStr[..32] == Hex(out[..])
    ensures outputStr[32..] == old(outputStr[32..])
  {
    hide Hex, HexByte;
    for i := 0 to 16
      invariant outputStr[..2 * i] == Hex(out[..i])
      invariant outputStr[32..] == old(outputStr[32..])
    {
      WritePair(out[i], outputStr, 2 * i);
      HexExtends(out[..i + 1]);
      assert out[..i + 1][..i] == out[..i];
    }
    assert out[..16] == out[..];
  }

  method WritePair(b: byte, outputStr: array<char>, at: nat)
    requires at + 2 <= 32 && outputStr.Length >= 33
    modifies outputStr
    ensures outputStr[..at + 2] == old(outputStr[..at]) + HexByte(b) && outputStr[32..] == old(outputStr[32..])
  {
    var n := b as int;
    var high := Hb2Hex(n / 16);
    var low := Hb2Hex(n);
    outputStr[at], outputStr[at + 1] := high, low;
  }

  lemma HexExtends(d: seq<byte>)
    requires d != []
    ensures Hex(d) == Hex(d[..|d| - 1]) + HexByte(d[|d| - 1])
  {
  }

  /** http_client_file_md5: the digest of a file read in pieces of at most 1024 bytes does not
      depend on the pieces. */
  method FileMd5(file: seq<byte>, output: array<char>)
    requires output.Length >= 33
    modifies output
    ensures output[..32] == Hex(Md5(file)) && output[32] == '\0'
  {
    hide Hex, Compress, Fold, PadAs, DigestBytes, Md5, Context.Valid;
    var ctx := new Context.Init();
    ctx.Starts();
    var buffer := new byte[1024](_ => 0);
    var at := 0;
    while at < |file|
      invariant 0 <= at <= |file| && ctx.Valid() && ctx.absorbed == file[..at] && ctx.counted == at
      invariant fresh(ctx) && fresh(ctx.state) && fresh(ctx.buffer)
      invariant buffer != ctx.buffer && buffer.Length == 1024
    {
      var count := ReadPiece(file, at, buffer);
      ctx.Update(buffer, count);
      assert file[..at + count] == file[..at] + file[at..at + count];
      at := at + count;
    }
    assert file[..at] == file;
    FinishHb2Hex(ctx, output);
  }

  /** The file read: as many of the remaining bytes as fit the buffer. */
  method ReadPiece(file: seq<byte>, at: nat, buffer: array<byte>) returns (count: nat)
    requires at < |file| && buffer.Length == 1024
    modifies buffer
    ensures 0 < count <= 1024 && at + count <= |file| && buffer[..count] == file[at..at + count]
  {
    count := if |file| - at < 1024 then |file| - at else 1024;
    for i := 0 to count
      invariant buffer[..i] == file[at..at + i]
    {
      buffer[i] := file[at + i];
    }
  }

  /** What a reader takes a hexadecimal digit for. */
  function Nibble(c: char): int {
    if '0' <= c <= '9' then c as int - '0' as int else if 'a' <= c <= 'f' then c as int - 'a' as int + 10 else -1
  }

  /** Each pair of digits stands for its byte, high nibble first. */
  predicate ReadsBack(text: string, d: seq<byte>) {
    |text| == 2 * |d| && forall i :: 0 <= i < |d| ==> 16 * Nibble(text[2 * i]) + Nibble(text[2 * i + 1]) == d[i] as int
  }

  lemma AllReadsBack(d: seq<byte>)
    ensures ReadsBack(Hex(d), d)
  {
    forall i | 0 <= i < |d|
      ensures 16 * Nibble(Hex(d)[2 * i]) + Nibble(Hex(d)[2 * i + 1]) == d[i] as int
    {
      HexReadsBack(d, i);
    }
  }

  /** The text reads back, byte by byte. */
  lemma {:induction false} HexReadsBack(d: seq<byte>, i: nat)
    requires i < |d|
    ensures 16 * Nibble(Hex(d)[2 * i]) + Nibble(Hex(d)[2 * i + 1]) == d[i] as int
  {
    var n := |d| - 1;
    HexExtends(d);
    if i < n {
      HexReadsBack(d[..n], i);
    } else {
      ByteReadsBack(d[n]);
    }
  }

  lemma ByteReadsBack(b: byte)
    ensures 16 * Nibble(HexByte(b)[0]) + Nibble(HexByte(b)[1]) == b as int
  {
    DigitReadsBack(b as int / 16);
    DigitReadsBack(b as int % 16);
  }

  lemma DigitReadsBack(h: nat)
    requires h < 16
    ensures Nibble(DIGITS[h]) == h
  {
  }

  /** Two digests of the same length have the same text only if they are equal, so comparing
      texts compares digests. */
  lemma {:induction false} HexIsInjective(d: seq<byte>, e: seq<byte>)
    requires |d| == |e|
    ensures Hex(d) == Hex(e) <==> d == e
  {
    if d != [] && Hex(d) == Hex(e) {
      var n := |d| - 1;
      assert Hex(d)[..2 * n] == Hex(d[..n]) && Hex(e)[..2 * n] == Hex(e[..n]);
      assert Hex(d)[2 * n..] == HexByte(d[n]) && Hex(e)[2 * n..] == HexByte(e[n]);
      HexIsInjective(d[..n], e[..n]);
      HexByteIsInjective(d[n], e[n]);
      assert d == d[..n] + [d[n]] && e == e[..n] + [e[n]];
    }
  }

  lemma HexByteIsInjective(x: byte, y: byte)
    requires HexByte(x) == HexByte(y)
    ensures x == y
  {
    DigitPairTellsNumber(x as int, y as int);
    BytesDifferAsNumbers(x, y);
  }

  lemma DigitPairTellsNumber(m: nat, n: nat)
    requires m < 256 && n < 256
    requires [DIGITS[m / 16], DIGITS[m % 16]] == [DIGITS[n / 16], DIGITS[n % 16]]
    ensures m == n
  {
    assert DIGITS[m / 16] == DIGITS[n / 16] && DIGITS[m % 16] == DIGITS[n % 16];
    DigitsInOrder(m / 16);
    DigitsInOrder(n / 16);
    DigitsInOrder(m % 16);
    DigitsInOrder(n % 16);
  }
}
