/**
 The compression function of hmi/HmiFunction/md5.cpp: four macros, sixty-four unrolled uses of them, and
 the byte-to-word copies around them.  It is proved equal to the table-driven steps of `Md5Spec`.
 */
module Md5Transform {
  import opened Md5Spec
  import opened Md5Words

  /** The FF macro. */
  method FF(a0: Word, b: Word, c: Word, d: Word, x: Word, s: Word, ac: Word) returns (a: Word)
    requires s <= 32
    ensures a == Mix(a0, b, F(b, c, d), x, ac, s)
  {
    hide RotateLeft, F, Plus;
    a := Plus(a0, Plus(Plus(F(b, c, d), x), ac));
    a := RotateLeft(a, s);
    a := Plus(a, b);
  }

  /** The GG macro. */
  method GG(a0: Word, b: Word, c: Word, d: Word, x: Word, s: Word, ac: Word) returns (a: Word)
    requires s <= 32
    ensures a == Mix(a0, b, G(b, c, d), x, ac, s)
  {
    hide RotateLeft, G, Plus;
    a := Plus(a0, Plus(Plus(G(b, c, d), x), ac));
    a := RotateLeft(a, s);
    a := Plus(a, b);
  }

  /** The HH macro. */
  method HH(a0: Word, b: Word, c: Word, d: Word, x: Word, s: Word, ac: Word) returns (a: Word)
    requires s <= 32
    ensures a == Mix(a0, b, H(b, c, d), x, ac, s)
  {
    hide RotateLeft, H, Plus;
    a := Plus(a0, Plus(Plus(H(b, c, d), x), ac));
    a := RotateLeft(a, s);
    a := Plus(a, b);
  }

  /** The II macro. */
  method II(a0: Word, b: Word, c: Word, d: Word, x: Word, s: Word, ac: Word) returns (a: Word)
    requires s <= 32
    ensures a == Mix(a0, b, I(b, c, d), x, ac, s)
  {
    hide RotateLeft, I, Plus;
    a := Plus(a0, Plus(Plus(I(b, c, d), x), ac));
    a := RotateLeft(a, s);
    a := Plus(a, b);
  }

  /** Row i of the unrolled program: which word, shift and constant step i uses. */
  predicate Row(i: nat, w: nat, sh: Word, t: Word) {
    i < 64 && w == WordIndex(i) && sh == Shift(i) && t == T(i)
  }

  lemma StepF(s: Digest, x: seq<Word>, i: nat, w: nat, sh: Word, t: Word)
    requires |x| == 16 && 0 <= i < 16 && Row(i, w, sh, t)
    ensures w < 16 && sh <= 32
    ensures var u := Steps(s, x, i);
            Steps(s, x, i + 1) == Digest(u.d, Mix(u.a, u.b, F(u.b, u.c, u.d), x[w], t, sh), u.b, u.c)
  {
    hide Mix, T;
  }

  lemma StepG(s: Digest, x: seq<Word>, i: nat, w: nat, sh: Word, t: Word)
    requires |x| == 16 && 16 <= i < 32 && Row(i, w, sh, t)
    ensures w < 16 && sh <= 32
    ensures var u := Steps(s, x, i);
            Steps(s, x, i + 1) == Digest(u.d, Mix(u.a, u.b, G(u.b, u.c, u.d), x[w], t, sh), u.b, u.c)
  {
    hide Mix, T;
  }

  lemma StepH(s: Digest, x: seq<Word>, i: nat, w: nat, sh: Word, t: Word)
    requires |x| == 16 && 32 <= i < 48 && Row(i, w, sh, t)
    ensures w < 16 && sh <= 32
    ensures var u := Steps(s, x, i);
            Steps(s, x, i + 1) == Digest(u.d, Mix(u.a, u.b, H(u.b, u.c, u.d), x[w], t, sh), u.b, u.c)
  {
    hide Mix, T;
  }

  lemma StepI(s: Digest, x: seq<Word>, i: nat, w: nat, sh: Word, t: Word)
    requires |x| == 16 && 48 <= i < 64 && Row(i, w, sh, t)
    ensures w < 16 && sh <= 32
    ensures var u := Steps(s, x, i);
            Steps(s, x, i + 1) == Digest(u.d, Mix(u.a, u.b, I(u.b, u.c, u.d), x[w], t, sh), u.b, u.c)
  {
    hide Mix, T;
  }

  lemma Rows1To4()
    ensures Row(0, 0, 7, 0xd76aa478) && Row(1, 1, 12, 0xe8c7b756)
    ensures Row(2, 2, 17, 0x242070db) && Row(3, 3, 22, 0xc1bdceee)
  {
  }

  lemma Rows5To8()
    ensures Row(4, 4, 7, 0xf57c0faf) && Row(5, 5, 12, 0x4787c62a)
    ensures Row(6, 6, 17, 0xa8304613) && Row(7, 7, 22, 0xfd469501)
  {
  }

  lemma Rows9To12()
    ensures Row(8, 8, 7, 0x698098d8) && Row(9, 9, 12, 0x8b44f7af)
    ensures Row(10, 10, 17, 0xffff5bb1) && Row(11, 11, 22, 0x895cd7be)
  {
  }

  lemma Rows13To16()
    ensures Row(12, 12, 7, 0x6b901122) && Row(13, 13, 12, 0xfd987193)
    ensures Row(14, 14, 17, 0xa679438e) && Row(15, 15, 22, 0x49b40821)
  {
  }

  lemma Rows17To20()
    ensures Row(16, 1, 5, 0xf61e2562) && Row(17, 6, 9, 0xc040b340)
    ensures Row(18, 11, 14, 0x265e5a51) && Row(19, 0, 20, 0xe9b6c7aa)
  {
  }

  lemma Rows21To24()
    ensures Row(20, 5, 5, 0xd62f105d) && Row(21, 10, 9, 0x02441453)
    ensures Row(22, 15, 14, 0xd8a1e681) && Row(23, 4, 20, 0xe7d3fbc8)
  {
  }

  lemma Rows25To28()
    ensures Row(24, 9, 5, 0x21e1cde6) && Row(25, 14, 9, 0xc33707d6)
    ensures Row(26, 3, 14, 0xf4d50d87) && Row(27, 8, 20, 0x455a14ed)
  {
  }

  lemma Rows29To32()
    ensures Row(28, 13, 5, 0xa9e3e905) && Row(29, 2, 9, 0xfcefa3f8)
    ensures Row(30, 7, 14, 0x676f02d9) && Row(31, 12, 20, 0x8d2a4c8a)
  {
  }

  lemma Rows33To36()
    ensures Row(32, 5, 4, 0xfffa3942) && Row(33, 8, 11, 0x8771f681)
    ensures Row(34, 11, 16, 0x6d9d6122) && Row(35, 14, 23, 0xfde5380c)
  {
  }

  lemma Rows37To40()
    ensures Row(36, 1, 4, 0xa4beea44) && Row(37, 4, 11, 0x4bdecfa9)
    ensures Row(38, 7, 16, 0xf6bb4b60) && Row(39, 10, 23, 0xbebfbc70)
  {
  }

  lemma Rows41To44()
    ensures Row(40, 13, 4, 0x289b7ec6) && Row(41, 0, 11, 0xeaa127fa)
    ensures Row(42, 3, 16, 0xd4ef3085) && Row(43, 6, 23, 0x04881d05)
  {
  }

  lemma Rows45To48()
    ensures Row(44, 9, 4, 0xd9d4d039) && Row(45, 12, 11, 0xe6db99e5)
    ensures Row(46, 15, 16, 0x1fa27cf8) && Row(47, 2, 23, 0xc4ac5665)
  {
  }

  lemma Rows49To52()
    ensures Row(48, 0, 6, 0xf4292244) && Row(49, 7, 10, 0x432aff97)
    ensures Row(50, 14, 15, 0xab9423a7) && Row(51, 5, 21, 0xfc93a039)
  {
  }

  lemma Rows53To56()
    ensures Row(52, 12, 6, 0x655b59c3) && Row(53, 3, 10, 0x8f0ccc92)
    ensures Row(54, 10, 15, 0xffeff47d) && Row(55, 1, 21, 0x85845dd1)
  {
  }

  lemma Rows57To60()
    ensures Row(56, 8, 6, 0x6fa87e4f) && Row(57, 15, 10, 0xfe2ce6e0)
    ensures Row(58, 6, 15, 0xa3014314) && Row(59, 13, 21, 0x4e0811a1)
  {
  }

  lemma Rows61To64()
    ensures Row(60, 4, 6, 0xf7537e82) && Row(61, 11, 10, 0xbd3af235)
    ensures Row(62, 2, 15, 0x2ad7d2bb) && Row(63, 9, 21, 0xeb86d391)
  {
  }

  method Steps1To8(a0: Word, b0: Word, c0: Word, d0: Word, x: seq<Word>, ghost s: Digest)
    returns (a: Word, b: Word, c: Word, d: Word)
    requires |x| == 16 && Digest(a0, b0, c0, d0) == Steps(s, x, 0)
    ensures Digest(a, b, c, d) == Steps(s, x, 8)
  {
    hide Steps, Mix, F, Row, T, Shift, WordIndex, RoundFunction;
    Rows1To4();
    Rows5To8();
    a, b, c, d := a0, b0, c0, d0;
    StepF(s, x, 0, 0, 7, 0xd76aa478);
    a := FF(a, b, c, d, x[0], 7, 0xd76aa478);
    StepF(s, x, 1, 1, 12, 0xe8c7b756);
    d := FF(d, a, b, c, x[1], 12, 0xe8c7b756);
    StepF(s, x, 2, 2, 17, 0x242070db);
    c := FF(c, d, a, b, x[2], 17, 0x242070db);
    StepF(s, x, 3, 3, 22, 0xc1bdceee);
    b := FF(b, c, d, a, x[3], 22, 0xc1bdceee);
    StepF(s, x, 4, 4, 7, 0xf57c0faf);
    a := FF(a, b, c, d, x[4], 7, 0xf57c0faf);
    StepF(s, x, 5, 5, 12, 0x4787c62a);
    d := FF(d, a, b, c, x[5], 12, 0x4787c62a);
    StepF(s, x, 6, 6, 17, 0xa8304613);
    c := FF(c, d, a, b, x[6], 17, 0xa8304613);
    StepF(s, x, 7, 7, 22, 0xfd469501);
    b := FF(b, c, d, a, x[7], 22, 0xfd469501);
  }

  method Steps9To16(a0: Word, b0: Word, c0: Word, d0: Word, x: seq<Word>, ghost s: Digest)
    returns (a: Word, b: Word, c: Word, d: Word)
    requires |x| == 16 && Digest(a0, b0, c0, d0) == Steps(s, x, 8)
    ensures Digest(a, b, c, d) == Steps(s, x, 16)
  {
    hide Steps, Mix, F, Row, T, Shift, WordIndex, RoundFunction;
    Rows9To12();
    Rows13To16();
    a, b, c, d := a0, b0, c0, d0;
    StepF(s, x, 8, 8, 7, 0x698098d8);
    a := FF(a, b, c, d, x[8], 7, 0x698098d8);
    StepF(s, x, 9, 9, 12, 0x8b44f7af);
    d := FF(d, a, b, c, x[9], 12, 0x8b44f7af);
    StepF(s, x, 10, 10, 17, 0xffff5bb1);
    c := FF(c, d, a, b, x[10], 17, 0xffff5bb1);
    StepF(s, x, 11, 11, 22, 0x895cd7be);
    b := FF(b, c, d, a, x[11], 22, 0x895cd7be);
    StepF(s, x, 12, 12, 7, 0x6b901122);
    a := FF(a, b, c, d, x[12], 7, 0x6b901122);
    StepF(s, x, 13, 13, 12, 0xfd987193);
    d := FF(d, a, b, c, x[13], 12, 0xfd987193);
    StepF(s, x, 14, 14, 17, 0xa679438e);
    c := FF(c, d, a, b, x[14], 17, 0xa679438e);
    StepF(s, x, 15, 15, 22, 0x49b40821);
    b := FF(b, c, d, a, x[15], 22, 0x49b40821);
  }

  method Steps17To24(a0: Word, b0: Word, c0: Word, d0: Word, x: seq<Word>, ghost s: Digest)
    returns (a: Word, b: Word, c: Word, d: Word)
    requires |x| == 16 && Digest(a0, b0, c0, d0) == Steps(s, x, 16)
    ensures Digest(a, b, c, d) == Steps(s, x, 24)
  {
    hide Steps, Mix, G, Row, T, Shift, WordIndex, RoundFunction;
    Rows17To20();
    Rows21To24();
    a, b, c, d := a0, b0, c0, d0;
    StepG(s, x, 16, 1, 5, 0xf61e2562);
    a := GG(a, b, c, d, x[1], 5, 0xf61e2562);
    StepG(s, x, 17, 6, 9, 0xc040b340);
    d := GG(d, a, b, c, x[6], 9, 0xc040b340);
    StepG(s, x, 18, 11, 14, 0x265e5a51);
    c := GG(c, d, a, b, x[11], 14, 0x265e5a51);
    StepG(s, x, 19, 0, 20, 0xe9b6c7aa);
    b := GG(b, c, d, a, x[0], 20, 0xe9b6c7aa);
    StepG(s, x, 20, 5, 5, 0xd62f105d);
    a := GG(a, b, c, d, x[5], 5, 0xd62f105d);
    StepG(s, x, 21, 10, 9, 0x02441453);
    d := GG(d, a, b, c, x[10], 9, 0x02441453);
    StepG(s, x, 22, 15, 14, 0xd8a1e681);
    c := GG(c, d, a, b, x[15], 14, 0xd8a1e681);
    StepG(s, x, 23, 4, 20, 0xe7d3fbc8);
    b := GG(b, c, d, a, x[4], 20, 0xe7d3fbc8);
  }

  method Steps25To32(a0: Word, b0: Word, c0: Word, d0: Word, x: seq<Word>, ghost s: Digest)
    returns (a: Word, b: Word, c: Word, d: Word)
    requires |x| == 16 && Digest(a0, b0, c0, d0) == Steps(s, x, 24)
    ensures Digest(a, b, c, d) == Steps(s, x, 32)
  {
    hide Steps, Mix, G, Row, T, Shift, WordIndex, RoundFunction;
    Rows25To28();
    Rows29To32();
    a, b, c, d := a0, b0, c0, d0;
    StepG(s, x, 24, 9, 5, 0x21e1cde6);
    a := GG(a, b, c, d, x[9], 5, 0x21e1cde6);
    StepG(s, x, 25, 14, 9, 0xc33707d6);
    d := GG(d, a, b, c, x[14], 9, 0xc33707d6);
    StepG(s, x, 26, 3, 14, 0xf4d50d87);
    c := GG(c, d, a, b, x[3], 14, 0xf4d50d87);
    StepG(s, x, 27, 8, 20, 0x455a14ed);
    b := GG(b, c, d, a, x[8], 20, 0x455a14ed);
    StepG(s, x, 28, 13, 5, 0xa9e3e905);
    a := GG(a, b, c, d, x[13], 5, 0xa9e3e905);
    StepG(s, x, 29, 2, 9, 0xfcefa3f8);
    d := GG(d, a, b, c, x[2], 9, 0xfcefa3f8);
    StepG(s, x, 30, 7, 14, 0x676f02d9);
    c := GG(c, d, a, b, x[7], 14, 0x676f02d9);
    StepG(s, x, 31, 12, 20, 0x8d2a4c8a);
    b := GG(b, c, d, a, x[12], 20, 0x8d2a4c8a);
  }

  method Steps33To40(a0: Word, b0: Word, c0: Word, d0: Word, x: seq<Word>, ghost s: Digest)
    returns (a: Word, b: Word, c: Word, d: Word)
    requires |x| == 16 && Digest(a0, b0, c0, d0) == Steps(s, x, 32)
    ensures Digest(a, b, c, d) == Steps(s, x, 40)
  {
    hide Steps, Mix, H, Row, T, Shift, WordIndex, RoundFunction;
    Rows33To36();
    Rows37To40();
    a, b, c, d := a0, b0, c0, d0;
    StepH(s, x, 32, 5, 4, 0xfffa3942);
    a := HH(a, b, c, d, x[5], 4, 0xfffa3942);
    StepH(s, x, 33, 8, 11, 0x8771f681);
    d := HH(d, a, b, c, x[8], 11, 0x8771f681);
    StepH(s, x, 34, 11, 16, 0x6d9d6122);
    c := HH(c, d, a, b, x[11], 16, 0x6d9d6122);
    StepH(s, x, 35, 14, 23, 0xfde5380c);
    b := HH(b, c, d, a, x[14], 23, 0xfde5380c);
    StepH(s, x, 36, 1, 4, 0xa4beea44);
    a := HH(a, b, c, d, x[1], 4, 0xa4beea44);
    StepH(s, x, 37, 4, 11, 0x4bdecfa9);
    d := HH(d, a, b, c, x[4], 11, 0x4bdecfa9);
    StepH(s, x, 38, 7, 16, 0xf6bb4b60);
    c := HH(c, d, a, b, x[7], 16, 0xf6bb4b60);
    StepH(s, x, 39, 10, 23, 0xbebfbc70);
    b := HH(b, c, d, a, x[10], 23, 0xbebfbc70);
  }

  method Steps41To48(a0: Word, b0: Word, c0: Word, d0: Word, x: seq<Word>, ghost s: Digest)
    returns (a: Word, b: Word, c: Word, d: Word)
    requires |x| == 16 && Digest(a0, b0, c0, d0) == Steps(s, x, 40)
    ensures Digest(a, b, c, d) == Steps(s, x, 48)
  {
    hide Steps, Mix, H, Row, T, Shift, WordIndex, RoundFunction;
    Rows41To44();
    Rows45To48();
    a, b, c, d := a0, b0, c0, d0;
    StepH(s, x, 40, 13, 4, 0x289b7ec6);
    a := HH(a, b, c, d, x[13], 4, 0x289b7ec6);
    StepH(s, x, 41, 0, 11, 0xeaa127fa);
    d := HH(d, a, b, c, x[0], 11, 0xeaa127fa);
    StepH(s, x, 42, 3, 16, 0xd4ef3085);
    c := HH(c, d, a, b, x[3], 16, 0xd4ef3085);
    StepH(s, x, 43, 6, 23, 0x04881d05);
    b := HH(b, c, d, a, x[6], 23, 0x04881d05);
    StepH(s, x, 44, 9, 4, 0xd9d4d039);
    a := HH(a, b, c, d, x[9], 4, 0xd9d4d039);
    StepH(s, x, 45, 12, 11, 0xe6db99e5);
    d := HH(d, a, b, c, x[12], 11, 0xe6db99e5);
    StepH(s, x, 46, 15, 16, 0x1fa27cf8);
    c := HH(c, d, a, b, x[15], 16, 0x1fa27cf8);
    StepH(s, x, 47, 2, 23, 0xc4ac5665);
    b := HH(b, c, d, a, x[2], 23, 0xc4ac5665);
  }

  method Steps49To56(a0: Word, b0: Word, c0: Word, d0: Word, x: seq<Word>, ghost s: Digest)
    returns (a: Word, b: Word, c: Word, d: Word)
    requires |x| == 16 && Digest(a0, b0, c0, d0) == Steps(s, x, 48)
    ensures Digest(a, b, c, d) == Steps(s, x, 56)
  {
    hide Steps, Mix, I, Row, T, Shift, WordIndex, RoundFunction;
    Rows49To52();
    Rows53To56();
    a, b, c, d := a0, b0, c0, d0;
    StepI(s, x, 48, 0, 6, 0xf4292244);
    a := II(a, b, c, d, x[0], 6, 0xf4292244);
    StepI(s, x, 49, 7, 10, 0x432aff97);
    d := II(d, a, b, c, x[7], 10, 0x432aff97);
    StepI(s, x, 50, 14, 15, 0xab9423a7);
    c := II(c, d, a, b, x[14], 15, 0xab9423a7);
    StepI(s, x, 51, 5, 21, 0xfc93a039);
    b := II(b, c, d, a, x[5], 21, 0xfc93a039);
    StepI(s, x, 52, 12, 6, 0x655b59c3);
    a := II(a, b, c, d, x[12], 6, 0x655b59c3);
    StepI(s, x, 53, 3, 10, 0x8f0ccc92);
    d := II(d, a, b, c, x[3], 10, 0x8f0ccc92);
    StepI(s, x, 54, 10, 15, 0xffeff47d);
    c := II(c, d, a, b, x[10], 15, 0xffeff47d);
    StepI(s, x, 55, 1, 21, 0x85845dd1);
    b := II(b, c, d, a, x[1], 21, 0x85845dd1);
  }

  method Steps57To64(a0: Word, b0: Word, c0: Word, d0: Word, x: seq<Word>, ghost s: Digest)
    returns (a: Word, b: Word, c: Word, d: Word)
    requires |x| == 16 && Digest(a0, b0, c0, d0) == Steps(s, x, 56)
    ensures Digest(a, b, c, d) == Steps(s, x, 64)
  {
    hide Steps, Mix, I, Row, T, Shift, WordIndex, RoundFunction;
    Rows57To60();
    Rows61To64();
    a, b, c, d := a0, b0, c0, d0;
    StepI(s, x, 56, 8, 6, 0x6fa87e4f);
    a := II(a, b, c, d, x[8], 6, 0x6fa87e4f);
    StepI(s, x, 57, 15, 10, 0xfe2ce6e0);
    d := II(d, a, b, c, x[15], 10, 0xfe2ce6e0);
    StepI(s, x, 58, 6, 15, 0xa3014314);
    c := II(c, d, a, b, x[6], 15, 0xa3014314);
    StepI(s, x, 59, 13, 21, 0x4e0811a1);
    b := II(b, c, d, a, x[13], 21, 0x4e0811a1);
    StepI(s, x, 60, 4, 6, 0xf7537e82);
    a := II(a, b, c, d, x[4], 6, 0xf7537e82);
    StepI(s, x, 61, 11, 10, 0xbd3af235);
    d := II(d, a, b, c, x[11], 10, 0xbd3af235);
    StepI(s, x, 62, 2, 15, 0x2ad7d2bb);
    c := II(c, d, a, b, x[2], 15, 0x2ad7d2bb);
    StepI(s, x, 63, 9, 21, 0xeb86d391);
    b := II(b, c, d, a, x[9], 21, 0xeb86d391);
  }

  // ---------------------------------------------------------------- words and bytes

  method MD5Encode(output: array<Byte>, input: seq<Word>)
    requires 4 * |input| <= output.Length
    modifies output
    ensures output[..4 * |input|] == Encode(input)
    ensures forall k :: 4 * |input| <= k < output.Length ==> output[k] == old(output[k])
  {
    var i, j := 0, 0;
    while j < 4 * |input|
      invariant i <= |input| && j == 4 * i
      invariant output[..j] == Encode(input[..i])
      invariant forall k :: 4 * |input| <= k < output.Length ==> output[k] == old(output[k])
    {
      EncodeSnoc(input, i);
      PutWord(output, j, input[i]);
      i := i + 1;
      j := j + 4;
    }
    assert input[..i] == input;
  }

  /** One turn of the encoding loop. */
  method PutWord(output: array<Byte>, j: nat, w: Word)
    requires j + 4 <= output.Length
    modifies output
    ensures output[..j + 4] == old(output[..j]) + EncodeWord(w)
    ensures forall k :: j + 4 <= k < output.Length ==> output[k] == old(output[k])
  {
    output[j] := (w & 0xFF) as Byte;
    output[j + 1] := ((w >> 8) & 0xFF) as Byte;
    output[j + 2] := ((w >> 16) & 0xFF) as Byte;
    output[j + 3] := ((w >> 24) & 0xFF) as Byte;
  }

  lemma EncodeSnoc(input: seq<Word>, i: nat)
    requires i < |input|
    ensures Encode(input[..i + 1]) == Encode(input[..i]) + EncodeWord(input[i])
  {
    assert input[..i + 1][..i] == input[..i];
  }

  method MD5Decode(output: array<Word>, input: array<Byte>, off: nat, len: nat)
    requires len % 4 == 0 && off + len <= input.Length && len / 4 <= output.Length
    modifies output
    ensures output[..len / 4] == Decode(input[off..off + len])
  {
    hide Decode, DecodeWord;
    ghost var bytes := input[off..off + len];
    var i, j := 0, 0;
    DecodeNothing();
    while j < len
      invariant j == 4 * i <= len
      invariant input[off..off + len] == bytes
      invariant output[..i] == Decode(bytes[..j])
    {
      DecodeStep(bytes, j);
      output[i] := DecodeWord(input[off + j], input[off + j + 1], input[off + j + 2], input[off + j + 3]);
      i := i + 1;
      j := j + 4;
    }
    assert bytes[..j] == bytes;
  }

  lemma DecodeStep(bytes: seq<Byte>, j: nat)
    requires j % 4 == 0 && j + 4 <= |bytes|
    ensures Decode(bytes[..j + 4])
         == Decode(bytes[..j]) + [DecodeWord(bytes[j], bytes[j + 1], bytes[j + 2], bytes[j + 3])]
  {
    assert bytes[..j + 4] == bytes[..j] + bytes[j..j + 4];
    DecodeSnoc(bytes[..j], bytes[j..j + 4]);
  }

  // ---------------------------------------------------------------- the compression function

  function StateOf(words: seq<Word>): Digest
    requires |words| == 4
  {
    Digest(words[0], words[1], words[2], words[3])
  }

  method Transform(state: array<Word>, block: array<Byte>, off: nat)
    requires state.Length == 4 && off + BLOCK <= block.Length
    modifies state
    ensures StateOf(state[..]) == Compress(StateOf(old(state[..])), block[off..off + BLOCK])
  {
    hide Steps, Decode, Plus;
    ghost var s := StateOf(state[..]);
    var a, b, c, d := state[0], state[1], state[2], state[3];
    var words := new Word[64];
    MD5Decode(words, block, off, BLOCK);
    var x := words[..16];
    StepsStart(s, x);
    a, b, c, d := Steps1To8(a, b, c, d, x, s);
    a, b, c, d := Steps9To16(a, b, c, d, x, s);
    a, b, c, d := Steps17To24(a, b, c, d, x, s);
    a, b, c, d := Steps25To32(a, b, c, d, x, s);
    a, b, c, d := Steps33To40(a, b, c, d, x, s);
    a, b, c, d := Steps41To48(a, b, c, d, x, s);
    a, b, c, d := Steps49To56(a, b, c, d, x, s);
    a, b, c, d := Steps57To64(a, b, c, d, x, s);
    state[0] := Plus(state[0], a);
    state[1] := Plus(state[1], b);
    state[2] := Plus(state[2], c);
    state[3] := Plus(state[3], d);
  }

  lemma StepsStart(s: Digest, x: seq<Word>)
    requires |x| == 16
    ensures Steps(s, x, 0) == s
  {
  }
}
