/** Base 32 encoding (cmBase32), specified as section 6 of RFC 4648 has it: the bits of the
    bytes, most significant first, in groups of five. */
module Base32 {
  import opened Numerals

  type Byte = x: nat | x < 256

  // ----- bits

  /** The bitwise and. */
  function BitAnd(x: nat, y: nat): nat {
    if x == 0 || y == 0 then 0 else 2 * BitAnd(x / 2, y / 2) + (x % 2) * (y % 2)
  }

  function Shr(x: nat, k: nat): nat {
    x / Pow(2, k)
  }

  function Shl(x: nat, k: nat): nat {
    x * Pow(2, k)
  }

  /** A mask of ones leaves the remainder. */
  lemma {:induction false} Masked(x: nat, k: nat)
    ensures BitAnd(x, Pow(2, k) - 1) == x % Pow(2, k)
  {
    if k > 0 {
      var p := Pow(2, k - 1);
      var m: nat := 2 * p - 1;
      assert m / 2 == p - 1 && m % 2 == 1;
      Masked(x / 2, k - 1);
      assert p == 1 ==> (x / 2) % p == 0;
      HalfRemainder(x, p);
    }
  }

  lemma HalfRemainder(x: nat, p: nat)
    requires p > 0
    ensures 2 * Remainder(x / 2, p) + x % 2 == Remainder(x, 2 * p)
  {
    hide Quotient, Remainder;
    var q, r := Quotient(x / 2, p), Remainder(x / 2, p);
    Divided(x / 2, p);
    Rearrange(q, 2, p);
    DivMod(2 * p, q, 2 * r + x % 2);
  }

  lemma Doubled(x: nat, m: nat)
    ensures BitAnd(2 * x, 2 * m) == 2 * BitAnd(x, m)
  {
  }

  /** Masking what was shifted to the left. */
  lemma {:induction false} MaskedShift(x: nat, m: nat, k: nat)
    ensures BitAnd(x * Pow(2, k), m * Pow(2, k)) == BitAnd(x, m) * Pow(2, k)
  {
    hide BitAnd;
    if k > 0 {
      var p := Pow(2, k - 1);
      MaskedShift(x, m, k - 1);
      Rearrange(x, 2, p);
      Rearrange(m, 2, p);
      Rearrange(BitAnd(x, m), 2, p);
      Doubled(x * p, m * p);
    }
  }

  // ----- the encoder

  const BASE32_ENCODE_TABLE: string := "ABCDEFGHIJKLMNOPQRSTUVWXYZ234567"
  const PADDING_CHAR: char := '='

  function Base32EncodeChar(schar: nat): char
    requires schar < 32
  {
    BASE32_ENCODE_TABLE[schar]
  }

  function Text(ds: seq<nat>): (t: string)
    requires Within(32, ds)
    ensures |t| == |ds|
  {
    seq(|ds|, i requires 0 <= i < |ds| => Base32EncodeChar(ds[i]))
  }

  lemma Powers()
    ensures Pow(2, 0) == 1 && Pow(2, 1) == 2 && Pow(2, 2) == 4 && Pow(2, 3) == 8 && Pow(2, 4) == 16
    ensures Pow(2, 5) == 32 && Pow(2, 6) == 64 && Pow(2, 7) == 128 && Pow(2, 8) == 256
  {
    assert Pow(2, 4) == 16;
    assert Pow(2, 6) == 64;
  }

  lemma MaskIs(x: nat, k: nat)
    requires k <= 5
    ensures var mask := if k == 5 then 0x1F else if k == 4 then 0x0F else if k == 3 then 0x07
                        else if k == 2 then 0x03 else if k == 1 then 0x01 else 0;
      BitAnd(x, mask) == x % Pow(2, k)
  {
    Powers();
    Masked(x, k);
  }

  /** The first k bits of a byte, moved to the left of a group of five. */
  ghost predicate LeftBitsOf(x: nat) {
    && BitAnd(Shl(x, 2), 0x1C) == (x % 8) * 4
    && BitAnd(Shl(x, 4), 0x10) == (x % 2) * 16
    && BitAnd(Shl(x, 1), 0x1E) == (x % 16) * 2
    && BitAnd(Shl(x, 3), 0x18) == (x % 4) * 8
  }

  /** The other bits, moved to the right. */
  ghost predicate RightBitsOf(x: nat) {
    && BitAnd(Shr(x, 3), 0x1F) == x / 8
    && BitAnd(Shr(x, 6), 0x03) == x / 64
    && BitAnd(Shr(x, 1), 0x1F) == x / 2 % 32
    && BitAnd(Shr(x, 4), 0x0F) == x / 16
    && BitAnd(Shr(x, 7), 0x01) == x / 128
    && BitAnd(Shr(x, 2), 0x1F) == x / 4 % 32
    && BitAnd(Shr(x, 5), 0x07) == x / 32
    && BitAnd(Shl(x, 0), 0x1F) == x % 32
  }

  lemma LeftBits(x: nat)
    ensures LeftBitsOf(x)
  {
    hide BitAnd, Pow;
    Powers();
    MaskedShift(x, 7, 2);
    MaskedShift(x, 1, 4);
    MaskedShift(x, 15, 1);
    MaskedShift(x, 3, 3);
    MaskIs(x, 3);
    MaskIs(x, 1);
    MaskIs(x, 4);
    MaskIs(x, 2);
  }

  lemma RightBits(x: Byte)
    ensures RightBitsOf(x)
  {
    hide BitAnd, Pow;
    Powers();
    MaskIs(x / 8, 5);
    MaskIs(x / 64, 2);
    MaskIs(x / 2, 5);
    MaskIs(x / 16, 4);
    MaskIs(x / 128, 1);
    MaskIs(x / 4, 5);
    MaskIs(x / 32, 3);
    MaskIs(x, 5);
  }

  function Number5(b: nat, x: seq<nat>): nat
    requires |x| == 5
  {
    (((x[0] * b + x[1]) * b + x[2]) * b + x[3]) * b + x[4]
  }

  lemma Spelled(b: nat, x: seq<nat>)
    ensures |x| == 5 ==> Number(b, x) == Number5(b, x)
    ensures |x| == 8 ==> Number(b, x) == ((Number5(b, x[..5]) * b + x[5]) * b + x[6]) * b + x[7]
  {
    if |x| == 5 || |x| == 8 {
      var y := x[..5];
      assert y[..4][..3] == y[..3] && y[..3][..2] == y[..2] && y[..2][..1] == y[..1] && y[..1][..0] == [];
      assert Number(b, y[..1]) == y[0];
      assert Number(b, y[..2]) == y[0] * b + y[1];
      assert Number(b, y[..3]) == (y[0] * b + y[1]) * b + y[2];
      assert Number(b, y[..4]) == ((y[0] * b + y[1]) * b + y[2]) * b + y[3];
      assert Number(b, y) == Number5(b, y);
      if |x| == 5 { assert y == x; }
      if |x| == 8 {
        assert x[..7][..6] == x[..6] && x[..6][..5] == y;
        assert Number(b, x[..6]) == Number(b, y) * b + x[5];
        assert Number(b, x[..7]) == Number(b, x[..6]) * b + x[6];
      }
    }
  }

  lemma Byte0(x: Byte) returns (a: nat, b: nat)
    ensures x == a * 8 + b && a < 32 && b < 8
    ensures BitAnd(Shr(x, 3), 0x1F) == a && BitAnd(Shl(x, 2), 0x1C) == b * 4
  {
    hide BitAnd, Shl, Shr;
    a, b := x / 8, x % 8;
    LeftBits(x);
    RightBits(x);
  }

  lemma Byte1(x: Byte) returns (c: nat, d: nat, e: nat)
    ensures x == c * 64 + d * 2 + e && c < 4 && d < 32 && e < 2
    ensures BitAnd(Shr(x, 6), 0x03) == c && BitAnd(Shr(x, 1), 0x1F) == d && BitAnd(Shl(x, 4), 0x10) == e * 16
  {
    hide BitAnd, Shl, Shr;
    c, d, e := x / 64, x / 2 % 32, x % 2;
    assert x / 2 / 32 == x / 64;
    LeftBits(x);
    RightBits(x);
  }

  lemma Byte2(x: Byte) returns (f: nat, g: nat)
    ensures x == f * 16 + g && f < 16 && g < 16
    ensures BitAnd(Shr(x, 4), 0x0F) == f && BitAnd(Shl(x, 1), 0x1E) == g * 2
  {
    hide BitAnd, Shl, Shr;
    f, g := x / 16, x % 16;
    LeftBits(x);
    RightBits(x);
  }

  lemma Byte3(x: Byte) returns (h: nat, i: nat, j: nat)
    ensures x == h * 128 + i * 4 + j && h < 2 && i < 32 && j < 4
    ensures BitAnd(Shr(x, 7), 0x01) == h && BitAnd(Shr(x, 2), 0x1F) == i && BitAnd(Shl(x, 3), 0x18) == j * 8
  {
    hide BitAnd, Shl, Shr;
    h, i, j := x / 128, x / 4 % 32, x % 4;
    LeftBits(x);
    RightBits(x);
  }

  lemma Byte4(x: Byte) returns (k: nat, l: nat)
    ensures x == k * 32 + l && k < 8 && l < 32
    ensures BitAnd(Shr(x, 5), 0x07) == k && BitAnd(Shl(x, 0), 0x1F) == l
  {
    hide BitAnd, Shl, Shr;
    k, l := x / 32, x % 32;
    RightBits(x);
  }

  /** Eight groups of five bits spell the same number as the five bytes they are from. */
  lemma Regroup(x: seq<nat>, y: seq<nat>, a: nat, b: nat, c: nat, d: nat, e: nat, f: nat, g: nat, h: nat, i: nat,
      j: nat, k: nat, l: nat)
    requires x == [a * 8 + b, c * 64 + d * 2 + e, f * 16 + g, h * 128 + i * 4 + j, k * 32 + l]
    requires y == [a, b * 4 + c, d, e * 16 + f, g * 2 + h, i, j * 8 + k, l]
    ensures Number(32, y) == Number(256, x)
  {
    hide Number;
    Spelled(256, x);
    Spelled(32, y);
    SameNumber(a, b, c, d, e, f, g, h, i, j, k, l);
  }

  lemma SameNumber(a: nat, b: nat, c: nat, d: nat, e: nat, f: nat, g: nat, h: nat, i: nat, j: nat, k: nat, l: nat)
    ensures (((((((a * 32 + (b * 4 + c)) * 32 + d) * 32 + (e * 16 + f)) * 32 + (g * 2 + h)) * 32 + i) * 32
      + (j * 8 + k)) * 32 + l
      == ((((a * 8 + b) * 256 + (c * 64 + d * 2 + e)) * 256 + (f * 16 + g)) * 256 + (h * 128 + i * 4 + j)) * 256
        + (k * 32 + l))
  {
  }

  method Base32Encode5(src: seq<Byte>, dst: array<char>)
    requires |src| == 5 && dst.Length == 8
    modifies dst
    ensures dst[..] == Text(Digits(32, Number(256, src), 8))
  {
    hide BitAnd, Shr, Shl, Number, Digits, Base32EncodeChar, Pow;
    ghost var a, b := Byte0(src[0]);
    ghost var c, d, e := Byte1(src[1]);
    ghost var f, g := Byte2(src[2]);
    ghost var h, i, j := Byte3(src[3]);
    ghost var k, l := Byte4(src[4]);
    ghost var y := [a, b * 4 + c, d, e * 16 + f, g * 2 + h, i, j * 8 + k, l];
    Regroup(src, y, a, b, c, d, e, f, g, h, i, j, k, l);
    NumberOfDigits(32, y);
    dst[0] := Base32EncodeChar(BitAnd(Shr(src[0], 3), 0x1F));
    dst[1] := Base32EncodeChar(BitAnd(Shl(src[0], 2), 0x1C) + BitAnd(Shr(src[1], 6), 0x03));
    dst[2] := Base32EncodeChar(BitAnd(Shr(src[1], 1), 0x1F));
    dst[3] := Base32EncodeChar(BitAnd(Shl(src[1], 4), 0x10) + BitAnd(Shr(src[2], 4), 0x0F));
    dst[4] := Base32EncodeChar(BitAnd(Shl(src[2], 1), 0x1E) + BitAnd(Shr(src[3], 7), 0x01));
    dst[5] := Base32EncodeChar(BitAnd(Shr(src[3], 2), 0x1F));
    dst[6] := Base32EncodeChar(BitAnd(Shl(src[3], 3), 0x18) + BitAnd(Shr(src[4], 5), 0x07));
    dst[7] := Base32EncodeChar(BitAnd(Shl(src[4], 0), 0x1F));
    assert dst[..] == Text(y);
  }

  /** The digits it takes to hold the bits of n bytes. */
  function Length(n: nat): nat {
    (8 * n + 4) / 5
  }

  function Padding(k: nat): string {
    if k == 0 then "" else Padding(k - 1) + [PADDING_CHAR]
  }

  /** The bits of all bytes, filled up with zeros to whole groups of five. */
  function Body(input: seq<Byte>): string {
    var m := Length(|input|);
    Text(Digits(32, Number(256, input) * Pow(2, 5 * m - 8 * |input|), m))
  }

  function Encoded(input: seq<Byte>, padding: bool): string {
    Body(input) + Padding(if padding then (8 - Length(|input|) % 8) % 8 else 0)
  }

  lemma TextJoin(xs: seq<nat>, ys: seq<nat>)
    requires Within(32, xs) && Within(32, ys)
    ensures Within(32, xs + ys) && Text(xs + ys) == Text(xs) + Text(ys)
  {
  }

  lemma TextTake(xs: seq<nat>, k: nat)
    requires Within(32, xs) && k <= |xs|
    ensures Within(32, xs[..k]) && Text(xs)[..k] == Text(xs[..k])
  {
  }

  lemma BlockPowers()
    ensures Pow(256, 5) == Pow(32, 8)
    ensures Pow(256, 4) == Pow(2, 2) * Pow(32, 6) && Pow(256, 1) * Pow(2, 2) == Pow(32, 2)
    ensures Pow(256, 3) == Pow(2, 4) * Pow(32, 4) && Pow(256, 2) * Pow(2, 4) == Pow(32, 4)
    ensures Pow(256, 2) == Pow(2, 1) * Pow(32, 3) && Pow(256, 3) * Pow(2, 1) == Pow(32, 5)
    ensures Pow(256, 1) == Pow(2, 3) * Pow(32, 1) && Pow(256, 4) * Pow(2, 3) == Pow(32, 7)
  {
    Powers();
    assert Pow(256, 2) == 0x10000 && Pow(32, 2) == 0x400;
    assert Pow(256, 4) == 0x1_0000_0000 && Pow(32, 4) == 0x10_0000;
    assert Pow(32, 6) == 0x4000_0000;
  }

  /** One more whole block. */
  lemma NextBlock(front: seq<Byte>, block: seq<Byte>, n: nat)
    requires |block| == 5
    ensures Blocks(front + block, n + 1) == Blocks(front, n) + Text(Digits(32, Number(256, block), 8))
  {
    hide Number, Digits, Pow;
    var a := 8 * n;
    BlockPowers();
    NumberJoin(256, front, block);
    NumberOfDigits(256, block);
    DigitsJoin(32, Number(256, front), Number(256, block), a, 8);
    TextJoin(Digits(32, Number(256, front), a), Digits(32, Number(256, block), 8));
  }

  lemma {:induction false} ZeroNumber(b: nat, zs: seq<nat>)
    requires forall i :: 0 <= i < |zs| ==> zs[i] == 0
    ensures Number(b, zs) == 0
  {
    if zs != [] { ZeroNumber(b, zs[..|zs| - 1]); }
  }

  /** A last block that is filled up with zeros, and cut: k digits are left out, and
      s bits of the others are not from the bytes. */
  lemma LastBlock(front: seq<Byte>, last: seq<Byte>, zeros: seq<Byte>, a: nat, k: nat, s: nat)
    requires |last| + |zeros| == 5 && k <= 8 && forall i :: 0 <= i < |zeros| ==> zeros[i] == 0
    requires Pow(256, |zeros|) == Pow(2, s) * Pow(32, k) && Pow(256, |last|) * Pow(2, s) == Pow(32, 8 - k)
    ensures Text(Digits(32, Number(256, front + last) * Pow(2, s), a + (8 - k)))
      == Text(Digits(32, Number(256, front), a)) + Text(Digits(32, Number(256, last + zeros), 8))[..8 - k]
  {
    hide Number, Digits, Pow, Text, Quotient;
    var x, y, p := Number(256, front), Number(256, last), Pow(2, s);
    NumberJoin(256, front, last);
    NumberJoin(256, last, zeros);
    ZeroNumber(256, zeros);
    NumberOfDigits(256, last);
    CutNumber(y, p, Pow(32, k));
    JoinNumber(x, y, Pow(256, |last|), p);
    DigitsTake(32, Number(256, last + zeros), 8 - k, k);
    TextTake(Digits(32, Number(256, last + zeros), 8), 8 - k);
    DigitsJoin(32, x, y * p, a, 8 - k);
    TextJoin(Digits(32, x, a), Digits(32, y * p, 8 - k));
  }

  lemma CutNumber(y: nat, p: nat, q: nat)
    requires q > 0
    ensures Quotient(y * (p * q), q) == y * p
  {
    Rearrange(y, p, q);
    assert y * (p * q) == (y * p) * q + 0;
    DivMod(q, y * p, 0);
  }

  lemma JoinNumber(x: nat, y: nat, u: nat, p: nat)
    requires y < u && p > 0
    ensures (x * u + y) * p == x * (u * p) + y * p && y * p < u * p
  {
    Distribute(x * u, y, p);
    Rearrange(x, u, p);
    OneMore(p, y, 0, u);
  }

  /** The text of whole blocks. */
  function Blocks(input: seq<Byte>, n: nat): string {
    Text(Digits(32, Number(256, input), 8 * n))
  }

  method EncodeString(input: seq<Byte>, padding: bool) returns (res: string)
    ensures res == Encoded(input, padding)
  {
    hide Number, Digits, Pow, Text, Blocks, Body, Length, Padding, Encoded;
    res := "";
    var blockSize, bufferSize := 5, 8;
    var buffer := new char[bufferSize];
    var pos := 0;
    ghost var n := 0;
    NothingEncoded(input);
    while pos + blockSize <= |input|
      invariant pos == 5 * n <= |input| && buffer.Length == 8
      invariant res == Blocks(input[..pos], n)
    {
      var block := input[pos..pos + blockSize];
      Base32Encode5(block, buffer);
      NextBlock(input[..pos], block, n);
      assert input[..pos] + block == input[..pos + blockSize];
      res := res + buffer[..];
      pos := pos + blockSize;
      n := n + 1;
    }

    var remain := |input| - pos;
    LengthOf(|input|, n);
    assert input == input[..pos] + input[pos..];
    if remain != 0 {
      var extended := new Byte[blockSize];
      for ii := 0 to remain
        invariant extended[..ii] == input[pos..pos + ii]
      {
        extended[ii] := input[pos + ii];
      }
      for ii := remain to blockSize
        invariant extended[..remain] == input[pos..]
        invariant forall j :: remain <= j < ii ==> extended[j] == 0
      {
        extended[ii] := 0;
      }

      Base32Encode5(extended[..], buffer);
      var numPad := 0;
      match remain {
        case 1 => numPad := 6;
        case 2 => numPad := 4;
        case 3 => numPad := 3;
        case 4 => numPad := 1;
        case _ =>
      }
      assert extended[..] == input[pos..] + extended[remain..];
      TailEncoded(input[..pos], input[pos..], extended[remain..], n, numPad);
      res := res + buffer[..bufferSize - numPad];
      NoPadding(Body(input));
      if padding {
        for ii := 0 to numPad
          invariant res == Body(input) + Padding(ii)
        {
          OnePadding(Body(input), ii);
          res := res + [PADDING_CHAR];
        }
      }
      EncodedWith(input, padding, numPad);
    } else {
      assert input[..pos] == input;
      WholeBlocks(input, n);
      NoPadding(Body(input));
      EncodedWith(input, padding, 0);
    }
  }

  lemma NoPadding(text: string)
    ensures text + Padding(0) == text
  {
  }

  lemma OnePadding(text: string, k: nat)
    ensures text + Padding(k) + [PADDING_CHAR] == text + Padding(k + 1)
  {
  }

  lemma EncodedWith(input: seq<Byte>, padding: bool, k: nat)
    requires k == (8 - Length(|input|) % 8) % 8
    ensures Encoded(input, padding) == Body(input) + Padding(if padding then k else 0)
  {
  }

  lemma NothingEncoded(input: seq<Byte>)
    ensures Blocks(input[..0], 0) == ""
  {
  }

  ghost predicate PaddingOf(remain: nat, numPad: nat) {
    (remain, numPad) in {(1, 6), (2, 4), (3, 3), (4, 1)}
  }

  /** The last block: the part of its text that is kept completes the body. */
  lemma TailEncoded(front: seq<Byte>, last: seq<Byte>, zeros: seq<Byte>, n: nat, numPad: nat)
    requires |front| == 5 * n && |last| + |zeros| == 5 && PaddingOf(|last|, numPad)
    requires forall i :: 0 <= i < |zeros| ==> zeros[i] == 0
    ensures Body(front + last) == Blocks(front, n) + Text(Digits(32, Number(256, last + zeros), 8))[..8 - numPad]
  {
    hide Number, Digits, Pow, Text;
    BlockPowers();
    LengthOf(|front + last|, n);
    LastBlock(front, last, zeros, 8 * n, numPad, 5 * (8 - numPad) - 8 * |last|);
  }

  lemma WholeBlocks(input: seq<Byte>, n: nat)
    requires |input| == 5 * n
    ensures Body(input) == Blocks(input, n)
  {
    hide Number, Digits, Text;
    LengthOf(|input|, n);
    assert Pow(2, 0) == 1;
  }

  lemma LengthOf(size: nat, n: nat)
    requires 5 * n <= size < 5 * n + 5
    ensures size == 5 * n ==> Length(size) == 8 * n && Length(size) % 8 == 0
    ensures forall remain, numPad :: PaddingOf(remain, numPad) && size == 5 * n + remain ==>
      Length(size) == 8 * n + 8 - numPad && (8 - Length(size) % 8) % 8 == numPad
  {
  }

  // ----- decoding

  function CharValue(c: char): nat {
    if 'A' <= c <= 'Z' then c as int - 'A' as int
    else if '2' <= c <= '7' then c as int - '2' as int + 26
    else 0
  }

  function Values(t: string): seq<nat> {
    seq(|t|, i requires 0 <= i < |t| => CharValue(t[i]))
  }

  /** The characters before the padding. */
  function Unpadded(t: string): string {
    if t != "" && t[|t| - 1] == PADDING_CHAR then Unpadded(t[..|t| - 1]) else t
  }

  /** The whole bytes that the bits of a text make up. */
  function Decode(t: string): seq<nat> {
    var body := Unpadded(t);
    var n := 5 * |body| / 8;
    Digits(256, Quotient(Number(32, Values(body)), Pow(2, 5 * |body| - 8 * n)), n)
  }

  lemma CharRoundTrip(v: nat)
    requires v < 32
    ensures CharValue(Base32EncodeChar(v)) == v && Base32EncodeChar(v) != PADDING_CHAR
  {
    var table := BASE32_ENCODE_TABLE;
    assert table[v] == if v < 26 then ('A' as int + v) as char else ('2' as int + (v - 26)) as char;
  }

  lemma TextRoundTrip(ds: seq<nat>)
    requires Within(32, ds)
    ensures Values(Text(ds)) == ds && PADDING_CHAR !in Text(ds)
  {
    forall i | 0 <= i < |ds|
      ensures Values(Text(ds))[i] == ds[i] && Text(ds)[i] != PADDING_CHAR
    {
      CharRoundTrip(ds[i]);
    }
  }

  lemma {:induction false} UnpaddedText(t: string, k: nat)
    requires PADDING_CHAR !in t
    ensures Unpadded(t + Padding(k)) == t
    ensures |Padding(k)| == k
  {
    if k == 0 {
      assert t + Padding(0) == t;
    } else {
      UnpaddedText(t, k - 1);
      assert (t + Padding(k))[..|t + Padding(k)| - 1] == t + Padding(k - 1);
    }
  }

  lemma {:induction false} DigitsNumber(b: nat, n: nat, k: nat)
    requires b > 0 && n < Pow(b, k)
    ensures Number(b, Digits(b, n, k)) == n
    decreases k
  {
    hide Quotient, Remainder;
    if k > 0 {
      Divided(n, b);
      if Quotient(n, b) >= Pow(b, k - 1) { MulMonotone(Pow(b, k - 1), Quotient(n, b), b); }
      DigitsNumber(b, Quotient(n, b), k - 1);
      var ds := Digits(b, n, k);
      assert ds[..k - 1] == Digits(b, Quotient(n, b), k - 1);
    }
  }

  lemma {:induction false} PowersOfTwo(n: nat, s: nat, m: nat)
    requires 8 * n + s == 5 * m && s < 5
    ensures Pow(256, n) * Pow(2, s) == Pow(32, m)
    decreases n
  {
    Powers();
    BlockPowers();
    if n < 5 {
      SmallPowers(n, s, m);
    } else {
      hide Pow;
      PowersOfTwo(n - 5, s, m - 8);
      PowAdd(256, n - 5, 5);
      PowAdd(32, m - 8, 8);
      var a, p, c := Pow(256, n - 5), Pow(256, 5), Pow(2, s);
      Swap(a, p, c);
    }
  }

  lemma SmallPowers(n: nat, s: nat, m: nat)
    requires 8 * n + s == 5 * m && s < 5 && n < 5
    ensures Pow(256, n) * Pow(2, s) == Pow(32, m)
  {
    BlockPowers();
    Powers();
    assert n == 0 ==> s == 0 && m == 0;
    assert n == 1 ==> s == 2 && m == 2;
    assert n == 2 ==> s == 4 && m == 4;
    assert n == 3 ==> s == 1 && m == 5;
    assert n == 4 ==> s == 3 && m == 7;
  }

  lemma {:induction false} PowAdd(b: nat, x: nat, y: nat)
    ensures Pow(b, x + y) == Pow(b, x) * Pow(b, y)
  {
    if x > 0 {
      PowAdd(b, x - 1, y);
      Swap(b, Pow(b, x - 1), Pow(b, y));
      Rearrange(b, Pow(b, x - 1), Pow(b, y));
    }
  }

  /** Decoding gives back the bytes, for every length and with or without padding. */
  lemma RoundTrip(input: seq<Byte>, padding: bool)
    ensures Decode(Encoded(input, padding)) == input
  {
    hide Number, Digits, Pow, Text, Quotient, Values, Padding;
    var n, m := |input|, Length(|input|);
    var s := 5 * m - 8 * n;
    var x := Number(256, input);
    assert 5 * m / 8 == n && s < 5;
    var p := Pow(2, s);
    NumberOfDigits(256, input);
    PowersOfTwo(n, s, m);
    OneMore(p, x, 0, Pow(256, n));
    var ds := Digits(32, x * p, m);
    DigitsNumber(32, x * p, m);
    TextRoundTrip(ds);
    UnpaddedText(Text(ds), if padding then (8 - m % 8) % 8 else 0);
    DivMod(p, x, 0);
    assert x * p + 0 == x * p;
  }

  /** The lengths of a text with padding and of one without. */
  lemma EncodedLength(input: seq<Byte>, padding: bool)
    ensures var n := |input|; |Encoded(input, padding)| == if padding then (n + 4) / 5 * 8 else (8 * n + 4) / 5
  {
    hide Number, Digits, Pow, Text;
    UnpaddedText("", if padding then (8 - Length(|input|) % 8) % 8 else 0);
    BlocksOf(|input|, |input| / 5);
  }

  lemma BlocksOf(n: nat, q: nat)
    requires q == n / 5
    ensures Length(n) + (8 - Length(n) % 8) % 8 == (n + 4) / 5 * 8
  {
    var r := n % 5;
    assert Length(n) == 8 * q + (8 * r + 4) / 5 && (n + 4) / 5 == q + (r + 4) / 5;
  }

  /** Different bytes have different texts. */
  lemma EncodedIsInjective(x: seq<Byte>, y: seq<Byte>, padding: bool)
    requires Encoded(x, padding) == Encoded(y, padding)
    ensures x == y
  {
    RoundTrip(x, padding);
    RoundTrip(y, padding);
  }

  /** The alphabet: capital letters and then the digits from 2 to 7. */
  lemma AlphabetIs(d: nat)
    requires d < 32
    ensures Base32EncodeChar(d) as int == if d < 26 then 'A' as int + d else '2' as int + (d - 26)
  {
  }

  lemma {:induction false} PaddingIs(k: nat)
    ensures |Padding(k)| == k && forall i :: 0 <= i < k ==> Padding(k)[i] == '='
  {
    if k > 0 { PaddingIs(k - 1); }
  }

  /** What fills up a text to whole blocks of eight is equals signs. */
  lemma PaddedWithEquals(input: seq<Byte>)
    ensures var short, long := Encoded(input, false), Encoded(input, true);
      && short <= long && |long| % 8 == 0 && |long| < |short| + 8
      && forall i :: |short| <= i < |long| ==> long[i] == '='
  {
    hide Padding, Body;
    PaddingIs(0);
    PaddingIs((8 - Length(|input|) % 8) % 8);
    BodyLength(input);
  }

  lemma BodyLength(input: seq<Byte>)
    ensures |Body(input)| == Length(|input|)
  {
  }

  /** A test vector of section 10 of RFC 4648: the letter f. */
  lemma LetterF()
    ensures Encoded([0x66], true) == "MY======"
  {
    hide Text, Padding, Number, Digits, Pow;
    Powers();
    LetterDigits();
    assert Length(1) == 2;
    PaddingIs(6);
    assert Padding(6) == "======";
    TwoLetters();
  }

  lemma LetterDigits()
    ensures Number(256, [0x66]) * 4 == 408 && Digits(32, 408, 2) == [12, 24]
  {
    assert Number(256, []) == 0;
    assert Number(256, [0x66]) == 0 * 256 + 0x66;
    assert Digits(32, 0, 0) == [];
    assert Digits(32, 12, 1) == [12];
  }

  lemma TwoLetters()
    ensures Text([12, 24]) == "MY"
  {
  }
}
