/**
 The MD5 message digest as sections 3.1 to 3.5 of RFC 1321 define it: padding, length, sixteen-word
 blocks, four rounds driven by tables, little-endian output.
 */
module Md5Spec {
  import opened Md5Words

  type Byte = bv8

  datatype Digest = Digest(a: Word, b: Word, c: Word, d: Word)

  const BLOCK: nat := 64

  /** Section 3.3. */
  const INITIAL: Digest := Digest(0x67452301, 0xEFCDAB89, 0x98BADCFE, 0x10325476)

  // ---------------------------------------------------------------- section 3.4: the steps

  /** The sine table: entry i is the integer part of 4294967296 * abs(sin(i + 1)); one row a round. */
  const T1: seq<Word> := [
    0xd76aa478, 0xe8c7b756, 0x242070db, 0xc1bdceee, 0xf57c0faf, 0x4787c62a, 0xa8304613, 0xfd469501,
    0x698098d8, 0x8b44f7af, 0xffff5bb1, 0x895cd7be, 0x6b901122, 0xfd987193, 0xa679438e, 0x49b40821]
  const T2: seq<Word> := [
    0xf61e2562, 0xc040b340, 0x265e5a51, 0xe9b6c7aa, 0xd62f105d, 0x02441453, 0xd8a1e681, 0xe7d3fbc8,
    0x21e1cde6, 0xc33707d6, 0xf4d50d87, 0x455a14ed, 0xa9e3e905, 0xfcefa3f8, 0x676f02d9, 0x8d2a4c8a]
  const T3: seq<Word> := [
    0xfffa3942, 0x8771f681, 0x6d9d6122, 0xfde5380c, 0xa4beea44, 0x4bdecfa9, 0xf6bb4b60, 0xbebfbc70,
    0x289b7ec6, 0xeaa127fa, 0xd4ef3085, 0x04881d05, 0xd9d4d039, 0xe6db99e5, 0x1fa27cf8, 0xc4ac5665]
  const T4: seq<Word> := [
    0xf4292244, 0x432aff97, 0xab9423a7, 0xfc93a039, 0x655b59c3, 0x8f0ccc92, 0xffeff47d, 0x85845dd1,
    0x6fa87e4f, 0xfe2ce6e0, 0xa3014314, 0x4e0811a1, 0xf7537e82, 0xbd3af235, 0x2ad7d2bb, 0xeb86d391]

  function T(i: nat): Word
    requires i < 64
  {
    if i < 16 then T1[i] else if i < 32 then T2[i - 16] else if i < 48 then T3[i - 32] else T4[i - 48]
  }

  /** Shift amounts: four per round, repeating. */
  const SHIFT: seq<Word> := [7, 12, 17, 22, 5, 9, 14, 20, 4, 11, 16, 23, 6, 10, 15, 21]

  function Shift(i: nat): (s: Word)
    requires i < 64
    ensures s <= 32
  {
    SHIFT[4 * (i / 16) + i % 4]
  }

  /** The word used by step i: in order, then every fifth from 1, every third from 5, every seventh. */
  function WordIndex(i: nat): (k: nat)
    requires i < 64
    ensures k < 16
  {
    if i < 16 then i
    else if i < 32 then (1 + 5 * i) % 16
    else if i < 48 then (5 + 3 * i) % 16
    else (7 * i) % 16
  }

  function RoundFunction(i: nat, b: Word, c: Word, d: Word): Word
    requires i < 64
  {
    if i < 16 then F(b, c, d) else if i < 32 then G(b, c, d) else if i < 48 then H(b, c, d) else I(b, c, d)
  }

  /** Step i of 64; the roles of the four words move round by one. */
  function Step(s: Digest, x: seq<Word>, i: nat): Digest
    requires |x| == 16 && i < 64
  {
    Digest(s.d, Mix(s.a, s.b, RoundFunction(i, s.b, s.c, s.d), x[WordIndex(i)], T(i), Shift(i)), s.b, s.c)
  }

  function Steps(s: Digest, x: seq<Word>, n: nat): Digest
    requires |x| == 16 && n <= 64
  {
    if n == 0 then s else Step(Steps(s, x, n - 1), x, n - 1)
  }

  // ---------------------------------------------------------------- bytes and words

  function EncodeWord(w: Word): seq<Byte> {
    [(w & 0xFF) as Byte, ((w >> 8) & 0xFF) as Byte, ((w >> 16) & 0xFF) as Byte, ((w >> 24) & 0xFF) as Byte]
  }

  function DecodeWord(b0: Byte, b1: Byte, b2: Byte, b3: Byte): Word {
    b0 as Word | (b1 as Word << 8) | (b2 as Word << 16) | (b3 as Word << 24)
  }

  function Encode(words: seq<Word>): (r: seq<Byte>)
    ensures |r| == 4 * |words|
  {
    if words == [] then [] else Encode(words[..|words| - 1]) + EncodeWord(words[|words| - 1])
  }

  function Decode(bytes: seq<Byte>): seq<Word>
    requires |bytes| % 4 == 0
    ensures |Decode(bytes)| == |bytes| / 4
  {
    if bytes == [] then []
    else
      var n := |bytes| - 4;
      Decode(bytes[..n]) + [DecodeWord(bytes[n], bytes[n + 1], bytes[n + 2], bytes[n + 3])]
  }

  // ---------------------------------------------------------------- blocks and messages

  function Add(s: Digest, t: Digest): Digest {
    Digest(Plus(s.a, t.a), Plus(s.b, t.b), Plus(s.c, t.c), Plus(s.d, t.d))
  }

  function Compress(s: Digest, block: seq<Byte>): Digest
    requires |block| == BLOCK
  {
    Add(s, Steps(s, Decode(block), 64))
  }

  function CompressAll(s: Digest, bytes: seq<Byte>): Digest
    requires |bytes| % BLOCK == 0
  {
    if bytes == [] then s
    else
      var n := |bytes| - BLOCK;
      Compress(CompressAll(s, bytes[..n]), bytes[n..])
  }

  function Zeros(n: nat): seq<Byte> {
    seq(n, _ => 0)
  }

  /** How many padding bytes bring the length to 56 modulo 64: between 1 and 64. */
  function PadLength(n: nat): nat {
    1 + (119 - n % BLOCK) % BLOCK
  }

  /** Section 3.1: a single one bit, then zeros. */
  function Padding(n: nat): seq<Byte> {
    [0x80] + Zeros(PadLength(n) - 1)
  }

  function WordOf(n: nat): Word
    requires n < 0x1_0000_0000
  {
    n as Word
  }

  /** Section 3.2: the number of bits modulo 2^64, low-order word first. */
  function LengthWords(n: nat): seq<Word> {
    [WordOf(8 * n % 0x1_0000_0000), WordOf(8 * n / 0x1_0000_0000 % 0x1_0000_0000)]
  }

  function Padded(m: seq<Byte>): (r: seq<Byte>)
    ensures |r| % BLOCK == 0
  {
    PaddingFills(|m|);
    m + Padding(|m|) + Encode(LengthWords(|m|))
  }

  /** Section 3.5. */
  function Md5(m: seq<Byte>): seq<Byte> {
    var s := CompressAll(INITIAL, Padded(m));
    Encode([s.a, s.b, s.c, s.d])
  }

  lemma PaddingFills(n: nat)
    ensures 1 <= PadLength(n) <= BLOCK && |Padding(n)| == PadLength(n)
    ensures Padding(n)[0] == 0x80 && forall k :: 1 <= k < PadLength(n) ==> Padding(n)[k] == 0
    ensures (n + PadLength(n) + 8) % BLOCK == 0
  {
    var q, r := n / BLOCK, n % BLOCK;
    if r < 56 {
      assert n + PadLength(n) + 8 == BLOCK * (q + 1);
    } else {
      assert n + PadLength(n) + 8 == BLOCK * (q + 2);
    }
  }

  // ---------------------------------------------------------------- facts about the specification

  /** The rounds start at words 0, 1, 5 and 0 and go on by 1, 5, 3 and 7 words, sixteen steps each. */
  lemma WordOrder(i: nat)
    requires i < 64
    ensures i % 16 == 0 ==> WordIndex(i) == if i == 16 then 1 else if i == 32 then 5 else 0
    ensures i % 16 != 0 ==>
              var step := if i < 16 then 1 else if i < 32 then 5 else if i < 48 then 3 else 7;
              WordIndex(i) == (WordIndex(i - 1) + step) % 16
  {
    if i % 16 != 0 {
      if i < 16 {
      } else if i < 32 {
        AddModulo(1 + 5 * (i - 1), 5, 1 + 5 * i);
      } else if i < 48 {
        AddModulo(5 + 3 * (i - 1), 3, 5 + 3 * i);
      } else {
        AddModulo(7 * (i - 1), 7, 7 * i);
      }
    }
  }

  lemma AddModulo(x: nat, d: nat, y: nat)
    requires y == x + d && d < 16
    ensures y % 16 == (x % 16 + d) % 16
  {
    var q, r := x / 16, x % 16;
    if r + d < 16 {
      SixteenIs(y, q, r + d);
      SixteenIs(r + d, 0, r + d);
    } else {
      SixteenIs(y, q + 1, r + d - 16);
      SixteenIs(r + d, 1, r + d - 16);
    }
  }

  lemma SixteenIs(z: nat, q: nat, r: nat)
    requires z == 16 * q + r && r < 16
    ensures z % 16 == r
  {
  }

  /** The two length words together are the number of bits modulo 2^64, the low-order one first. */
  lemma LengthValue(n: nat) returns (low: nat, high: nat)
    ensures low < 0x1_0000_0000 && high < 0x1_0000_0000
    ensures LengthWords(n) == [WordOf(low), WordOf(high)]
    ensures low + 0x1_0000_0000 * high == 8 * n % 0x1_0000_0000_0000_0000
  {
    hide WordOf;
    low, high := 8 * n % 0x1_0000_0000, 8 * n / 0x1_0000_0000 % 0x1_0000_0000;
    TwoWords(8 * n);
  }

  lemma TwoWords(bits: nat)
    ensures bits % 0x1_0000_0000 + 0x1_0000_0000 * (bits / 0x1_0000_0000 % 0x1_0000_0000)
         == bits % 0x1_0000_0000_0000_0000
  {
    var low, upper := bits % 0x1_0000_0000, bits / 0x1_0000_0000;
    var high, q := upper % 0x1_0000_0000, upper / 0x1_0000_0000;
    assert bits == 0x1_0000_0000 * upper + low && upper == 0x1_0000_0000 * q + high;
    RemainderIs(bits, q, low + 0x1_0000_0000 * high);
  }

  lemma RemainderIs(z: nat, q: nat, r: nat)
    requires z == 0x1_0000_0000_0000_0000 * q + r && r < 0x1_0000_0000_0000_0000
    ensures z % 0x1_0000_0000_0000_0000 == r
  {
  }

  lemma WordRoundTrip(w: Word)
    ensures |EncodeWord(w)| == 4
    ensures var b := EncodeWord(w); DecodeWord(b[0], b[1], b[2], b[3]) == w
  {
  }

  /** Decoding inverts encoding. */
  lemma {:induction false} DecodeEncode(words: seq<Word>)
    ensures Decode(Encode(words)) == words
  {
    hide EncodeWord, DecodeWord, Decode;
    if words != [] {
      var before, w := words[..|words| - 1], words[|words| - 1];
      DecodeEncode(before);
      WordRoundTrip(w);
      DecodeSnoc(Encode(before), EncodeWord(w));
      assert before + [w] == words;
    } else {
      DecodeNothing();
    }
  }

  lemma DecodeNothing()
    ensures Decode([]) == []
  {
  }

  lemma DecodeSnoc(bytes: seq<Byte>, four: seq<Byte>)
    requires |bytes| % 4 == 0 && |four| == 4
    ensures Decode(bytes + four) == Decode(bytes) + [DecodeWord(four[0], four[1], four[2], four[3])]
  {
    assert (bytes + four)[..|bytes|] == bytes;
  }

  lemma {:induction false} CompressAllConcat(s: Digest, p: seq<Byte>, q: seq<Byte>)
    requires |p| % BLOCK == 0 && |q| % BLOCK == 0
    ensures CompressAll(s, p + q) == CompressAll(CompressAll(s, p), q)
  {
    hide Compress, CompressAll;
    if q == [] {
      assert p + q == p;
      CompressNothing(CompressAll(s, p));
    } else {
      var n := |q| - BLOCK;
      CompressAllConcat(s, p, q[..n]);
      SplitTail(p, q, n);
      CompressAllBlock(s, p + q[..n], q[n..]);
      CompressAllBlock(CompressAll(s, p), q[..n], q[n..]);
    }
  }

  lemma CompressNothing(s: Digest)
    ensures CompressAll(s, []) == s
  {
  }

  lemma SplitTail(p: seq<Byte>, q: seq<Byte>, n: nat)
    requires n <= |q|
    ensures p + q[..n] + q[n..] == p + q && q[..n] + q[n..] == q
  {
  }

  lemma CompressAllBlock(s: Digest, p: seq<Byte>, block: seq<Byte>)
    requires |p| % BLOCK == 0 && |block| == BLOCK
    ensures CompressAll(s, p + block) == Compress(CompressAll(s, p), block)
  {
    hide Compress;
    assert (p + block)[..|p|] == p && (p + block)[|p|..] == block;
  }
}
