/**
 The digest of "abc" in the test suite of section A.5 of RFC 1321, computed through every step of the
 definition: padding, byte order, round functions, shifts, word order, sine table and output.
 */
module Md5Vectors {
  import opened Md5Spec
  import opened Md5Words
  import opened Md5Transform
  import opened Digests = Md5

  /** The padded message as sixteen words: "abc", a one bit, zeros, and the length of 24 bits. */
  const WORDS: seq<Word> := [0x80636261, 0, 0, 0, 0, 0, 0, 0, 0, 0, 0, 0, 0, 0, 24, 0]

  predicate Reaches(i: nat, a: Word, b: Word, c: Word, d: Word) {
    i <= 64 && Steps(INITIAL, WORDS, i) == Digest(a, b, c, d)
  }

  predicate WordAt(w: nat, x: Word) {
    w < 16 && WORDS[w] == x
  }

  lemma WordsAre()
    ensures WordAt(0, 0x80636261) && WordAt(14, 24)
    ensures forall w :: 1 <= w < 16 && w != 14 ==> WordAt(w, 0)
  {
  }

  lemma StepTo(i: nat, a: Word, b: Word, c: Word, d: Word, w: nat, sh: Word, t: Word, x: Word, f: Word, v: Word)
    requires Reaches(i, a, b, c, d) && Row(i, w, sh, t) && WordAt(w, x)
    requires sh <= 32 && RoundFunction(i, b, c, d) == f && Mix(a, b, f, x, t, sh) == v
    ensures Reaches(i + 1, d, v, b, c)
  {
    hide Mix, T, RoundFunction, WordIndex, Shift;
  }

  lemma Steps1To4()
    requires Reaches(0, 0x67452301, 0xefcdab89, 0x98badcfe, 0x10325476)
    ensures Reaches(4, 0xd6d117b4, 0x7ad956f2, 0x2f6fbd72, 0x344a8432)
  {
    hide Reaches, Row, WordAt;
    WordsAre();
    Rows1To4();
    StepTo(0, 0x67452301, 0xefcdab89, 0x98badcfe, 0x10325476, 0, 7, 0xd76aa478, 0x80636261, 0x98badcfe, 0xd6d117b4);
    StepTo(1, 0x10325476, 0xd6d117b4, 0xefcdab89, 0x98badcfe, 1, 12, 0xe8c7b756, 0x00000000, 0xceebcbca, 0x344a8432);
    StepTo(2, 0x98badcfe, 0x344a8432, 0xd6d117b4, 0xefcdab89, 2, 17, 0x242070db, 0x00000000, 0xdfc52fb9, 0x2f6fbd72);
    StepTo(3, 0xefcdab89, 0x2f6fbd72, 0x344a8432, 0xd6d117b4, 3, 22, 0xc1bdceee, 0x00000000, 0xf4da86b6, 0x7ad956f2);
  }

  lemma Steps5To8()
    requires Reaches(4, 0xd6d117b4, 0x7ad956f2, 0x2f6fbd72, 0x344a8432)
    ensures Reaches(8, 0xc73741ef, 0x928d99f6, 0x207dc67b, 0x8bac3051)
  {
    hide Reaches, Row, WordAt;
    WordsAre();
    Rows5To8();
    StepTo(4, 0xd6d117b4, 0x7ad956f2, 0x2f6fbd72, 0x344a8432, 4, 7, 0xf57c0faf, 0x00000000, 0x2e4b9472, 0xc73741ef);
    StepTo(5, 0x344a8432, 0xc73741ef, 0x7ad956f2, 0x2f6fbd72, 5, 12, 0x4787c62a, 0x00000000, 0x6a59fcf2, 0x8bac3051);
    StepTo(6, 0x2f6fbd72, 0x8bac3051, 0xc73741ef, 0x7ad956f2, 6, 17, 0xa8304613, 0x00000000, 0xf37546e3, 0x207dc67b);
    StepTo(7, 0x7ad956f2, 0x207dc67b, 0x8bac3051, 0xc73741ef, 7, 22, 0xfd469501, 0x00000000, 0xc72e01d5, 0x928d99f6);
  }

  lemma Steps9To12()
    requires Reaches(8, 0xc73741ef, 0x928d99f6, 0x207dc67b, 0x8bac3051)
    ensures Reaches(12, 0x854b3712, 0x5ed49596, 0x3020401c, 0x74e2f284)
  {
    hide Reaches, Row, WordAt;
    WordsAre();
    Rows9To12();
    StepTo(8, 0xc73741ef, 0x928d99f6, 0x207dc67b, 0x8bac3051, 8, 7, 0x698098d8, 0x00000000, 0x092da073, 0x854b3712);
    StepTo(9, 0x8bac3051, 0x854b3712, 0x928d99f6, 0x207dc67b, 9, 12, 0x8b44f7af, 0x00000000, 0xa03dd17b, 0x74e2f284);
    StepTo(10, 0x207dc67b, 0x74e2f284, 0x854b3712, 0x928d99f6, 10, 17, 0xffff5bb1, 0x00000000, 0x864f3b72, 0x3020401c);
    StepTo(11, 0x928d99f6, 0x3020401c, 0x74e2f284, 0x854b3712, 11, 22, 0x895cd7be, 0x00000000, 0xb56b7706, 0x5ed49596);
  }

  lemma Steps13To16()
    requires Reaches(12, 0x854b3712, 0x5ed49596, 0x3020401c, 0x74e2f284)
    ensures Reaches(16, 0xdda9b9a6, 0x72aff2e0, 0xe396856b, 0xa1051895)
  {
    hide Reaches, Row, WordAt;
    WordsAre();
    Rows13To16();
    StepTo(12, 0x854b3712, 0x5ed49596, 0x3020401c, 0x74e2f284, 12, 7, 0x6b901122, 0x00000000, 0x30226214, 0xdda9b9a6);
    StepTo(13, 0x74e2f284, 0xdda9b9a6, 0x5ed49596, 0x3020401c, 13, 12, 0xfd987193, 0x00000000, 0x7c80d19e, 0xa1051895);
    StepTo(14, 0x3020401c, 0xa1051895, 0xdda9b9a6, 0x5ed49596, 14, 17, 0xa679438e, 0x00000018, 0xdfd19d86, 0xe396856b);
    StepTo(15, 0x5ed49596, 0xe396856b, 0xa1051895, 0xdda9b9a6, 15, 22, 0x49b40821, 0x00000000, 0xbd2d3885, 0x72aff2e0);
  }

  lemma Steps17To20()
    requires Reaches(16, 0xdda9b9a6, 0x72aff2e0, 0xe396856b, 0xa1051895)
    ensures Reaches(20, 0x3e9e9126, 0xb5b204e4, 0xe25e1652, 0x4a1d804e)
  {
    hide Reaches, Row, WordAt;
    WordsAre();
    Rows17To20();
    StepTo(16, 0xdda9b9a6, 0x72aff2e0, 0xe396856b, 0xa1051895, 1, 5, 0xf61e2562, 0x00000000, 0x629795ea, 0x3e9e9126);
    StepTo(17, 0xa1051895, 0x3e9e9126, 0x72aff2e0, 0xe396856b, 6, 9, 0xc040b340, 0x00000000, 0x32bff3a2, 0x4a1d804e);
    StepTo(18, 0xe396856b, 0x4a1d804e, 0x3e9e9126, 0x72aff2e0, 11, 14, 0x265e5a51, 0x00000000, 0x4e1d8146, 0xe25e1652);
    StepTo(19, 0x72aff2e0, 0xe25e1652, 0x4a1d804e, 0x3e9e9126, 0, 20, 0xe9b6c7aa, 0x80636261, 0x621f104a, 0xb5b204e4);
  }

  lemma Steps21To24()
    requires Reaches(20, 0x3e9e9126, 0xb5b204e4, 0xe25e1652, 0x4a1d804e)
    ensures Reaches(24, 0x59a8ffda, 0x47092c07, 0xabfc7920, 0x6d002f1e)
  {
    hide Reaches, Row, WordAt;
    WordsAre();
    Rows21To24();
    StepTo(20, 0x3e9e9126, 0xb5b204e4, 0xe25e1652, 0x4a1d804e, 5, 5, 0xd62f105d, 0x00000000, 0xa0521654, 0x59a8ffda);
    StepTo(21, 0x4a1d804e, 0x59a8ffda, 0xb5b204e4, 0xe25e1652, 10, 9, 0x02441453, 0x00000000, 0x55a816f6, 0x6d002f1e);
    StepTo(22, 0xe25e1652, 0x6d002f1e, 0x59a8ffda, 0xb5b204e4, 15, 14, 0xd8a1e681, 0x00000000, 0x6d08ff1e, 0xabfc7920);
    StepTo(23, 0xb5b204e4, 0xabfc7920, 0x6d002f1e, 0x59a8ffda, 4, 20, 0xe7d3fbc8, 0x00000000, 0x2da87904, 0x47092c07);
  }

  lemma Steps25To28()
    requires Reaches(24, 0x59a8ffda, 0x47092c07, 0xabfc7920, 0x6d002f1e)
    ensures Reaches(28, 0xb7f268cf, 0x786acb8f, 0xfe1623b1, 0x09388eff)
  {
    hide Reaches, Row, WordAt;
    WordsAre();
    Rows25To28();
    StepTo(24, 0x59a8ffda, 0x47092c07, 0xabfc7920, 0x6d002f1e, 9, 5, 0x21e1cde6, 0x00000000, 0xc7fc7c26, 0xb7f268cf);
    StepTo(25, 0x6d002f1e, 0xb7f268cf, 0x47092c07, 0xabfc7920, 14, 9, 0xc33707d6, 0x00000018, 0xe7f16c07, 0x09388eff);
    StepTo(26, 0xabfc7920, 0x09388eff, 0xb7f268cf, 0x47092c07, 3, 14, 0xf4d50d87, 0x00000000, 0xb1fa4ccf, 0xfe1623b1);
    StepTo(27, 0x47092c07, 0xfe1623b1, 0x09388eff, 0xb7f268cf, 8, 20, 0x455a14ed, 0x00000000, 0xbe1aa6b1, 0x786acb8f);
  }

  lemma Steps29To32()
    requires Reaches(28, 0xb7f268cf, 0x786acb8f, 0xfe1623b1, 0x09388eff)
    ensures Reaches(32, 0x790a77fb, 0x726342d3, 0xa62884aa, 0x9f47e4f8)
  {
    hide Reaches, Row, WordAt;
    WordsAre();
    Rows29To32();
    StepTo(28, 0xb7f268cf, 0x786acb8f, 0xfe1623b1, 0x09388eff, 13, 5, 0xa9e3e905, 0x00000000, 0xfe2eab8f, 0x790a77fb);
    StepTo(29, 0x09388eff, 0x790a77fb, 0x786acb8f, 0xfe1623b1, 2, 9, 0xfcefa3f8, 0x00000000, 0x786aebbf, 0x9f47e4f8);
    StepTo(30, 0xfe1623b1, 0x9f47e4f8, 0x790a77fb, 0x786acb8f, 7, 14, 0x676f02d9, 0x00000000, 0x1942f4f8, 0xa62884aa);
    StepTo(31, 0x786acb8f, 0xa62884aa, 0x9f47e4f8, 0x790a77fb, 12, 20, 0x8d2a4c8a, 0x00000000, 0xa64d84aa, 0x726342d3);
  }

  lemma Steps33To36()
    requires Reaches(32, 0x790a77fb, 0x726342d3, 0xa62884aa, 0x9f47e4f8)
    ensures Reaches(36, 0xb3707ebf, 0x3b0875c7, 0x8d212ff5, 0x60127b2e)
  {
    hide Reaches, Row, WordAt;
    WordsAre();
    Rows33To36();
    StepTo(32, 0x790a77fb, 0x726342d3, 0xa62884aa, 0x9f47e4f8, 5, 4, 0xfffa3942, 0x00000000, 0x4b0c2281, 0xb3707ebf);
    StepTo(33, 0x9f47e4f8, 0xb3707ebf, 0x726342d3, 0xa62884aa, 8, 11, 0x8771f681, 0x00000000, 0x673bb8c6, 0x60127b2e);
    StepTo(34, 0xa62884aa, 0x60127b2e, 0xb3707ebf, 0x726342d3, 11, 16, 0x6d9d6122, 0x00000000, 0xa1014742, 0x8d212ff5);
    StepTo(35, 0x726342d3, 0x8d212ff5, 0x60127b2e, 0xb3707ebf, 14, 23, 0xfde5380c, 0x00000018, 0x5e432a64, 0x3b0875c7);
  }

  lemma Steps37To40()
    requires Reaches(36, 0xb3707ebf, 0x3b0875c7, 0x8d212ff5, 0x60127b2e)
    ensures Reaches(40, 0x21b117b9, 0x5a2f5ea5, 0x3575227e, 0x6e7429d5)
  {
    hide Reaches, Row, WordAt;
    WordsAre();
    Rows37To40();
    StepTo(36, 0xb3707ebf, 0x3b0875c7, 0x8d212ff5, 0x60127b2e, 1, 4, 0xa4beea44, 0x00000000, 0xd63b211c, 0x21b117b9);
    StepTo(37, 0x60127b2e, 0x21b117b9, 0x3b0875c7, 0x8d212ff5, 4, 11, 0x4bdecfa9, 0x00000000, 0x97984d8b, 0x6e7429d5);
    StepTo(38, 0x8d212ff5, 0x6e7429d5, 0x21b117b9, 0x3b0875c7, 7, 16, 0xf6bb4b60, 0x00000000, 0x74cd4bab, 0x3575227e);
    StepTo(39, 0x3b0875c7, 0x3575227e, 0x6e7429d5, 0x21b117b9, 10, 23, 0xbebfbc70, 0x00000000, 0x7ab01c12, 0x5a2f5ea5);
  }

  lemma Steps41To44()
    requires Reaches(40, 0x21b117b9, 0x5a2f5ea5, 0x3575227e, 0x6e7429d5)
    ensures Reaches(44, 0x11de1779, 0x4c6124f4, 0x31c465ca, 0xfadcaa38)
  {
    hide Reaches, Row, WordAt;
    WordsAre();
    Rows41To44();
    StepTo(40, 0x21b117b9, 0x5a2f5ea5, 0x3575227e, 0x6e7429d5, 13, 4, 0x289b7ec6, 0x00000000, 0x012e550e, 0x11de1779);
    StepTo(41, 0x6e7429d5, 0x11de1779, 0x5a2f5ea5, 0x3575227e, 0, 11, 0xeaa127fa, 0x80636261, 0x7e846ba2, 0xfadcaa38);
    StepTo(42, 0x3575227e, 0xfadcaa38, 0x11de1779, 0x5a2f5ea5, 3, 16, 0xd4ef3085, 0x00000000, 0xb12de3e4, 0x31c465ca);
    StepTo(43, 0x5a2f5ea5, 0x31c465ca, 0xfadcaa38, 0x11de1779, 6, 23, 0x04881d05, 0x00000000, 0xdac6d88b, 0x4c6124f4);
  }

  lemma Steps45To48()
    requires Reaches(44, 0x11de1779, 0x4c6124f4, 0x31c465ca, 0xfadcaa38)
    ensures Reaches(48, 0x7f2e507b, 0x7beb9700, 0x8fae6399, 0x99d9679d)
  {
    hide Reaches, Row, WordAt;
    WordsAre();
    Rows45To48();
    StepTo(44, 0x11de1779, 0x4c6124f4, 0x31c465ca, 0xfadcaa38, 9, 4, 0xd9d4d039, 0x00000000, 0x8779eb06, 0x7f2e507b);
    StepTo(45, 0xfadcaa38, 0x7f2e507b, 0x4c6124f4, 0x31c465ca, 12, 11, 0xe6db99e5, 0x00000000, 0x028b1145, 0x99d9679d);
    StepTo(46, 0x31c465ca, 0x99d9679d, 0x7f2e507b, 0x4c6124f4, 15, 16, 0x1fa27cf8, 0x00000000, 0xaa961312, 0x8fae6399);
    StepTo(47, 0x4c6124f4, 0x8fae6399, 0x99d9679d, 0x7f2e507b, 2, 23, 0xc4ac5665, 0x00000000, 0x6959547f, 0x7beb9700);
  }

  lemma Steps49To52()
    requires Reaches(48, 0x7f2e507b, 0x7beb9700, 0x8fae6399, 0x99d9679d)
    ensures Reaches(52, 0x7b201df8, 0x8bf025c4, 0xb298cefd, 0xf4e8e96e)
  {
    hide Reaches, Row, WordAt;
    WordsAre();
    Rows49To52();
    StepTo(48, 0x7f2e507b, 0x7beb9700, 0x8fae6399, 0x99d9679d, 0, 6, 0xf4292244, 0x80636261, 0xf041fcfb, 0x7b201df8);
    StepTo(49, 0x99d9679d, 0x7b201df8, 0x7beb9700, 0x8fae6399, 7, 10, 0x432aff97, 0x00000000, 0x009a0afe, 0xf4e8e96e);
    StepTo(50, 0x8fae6399, 0xf4e8e96e, 0x7b201df8, 0x7beb9700, 14, 15, 0xab9423a7, 0x00000018, 0x8fdcf407, 0xb298cefd);
    StepTo(51, 0x7beb9700, 0xb298cefd, 0xf4e8e96e, 0x7b201df8, 5, 21, 0xfc93a039, 0x00000000, 0x42370791, 0x8bf025c4);
  }

  lemma Steps53To56()
    requires Reaches(52, 0x7b201df8, 0x8bf025c4, 0xb298cefd, 0xf4e8e96e)
    ensures Reaches(56, 0x06cc5e8a, 0x3bfa2c27, 0x7d632dd0, 0x5b0d97aa)
  {
    hide Reaches, Row, WordAt;
    WordsAre();
    Rows53To56();
    StepTo(52, 0x7b201df8, 0x8bf025c4, 0xb298cefd, 0xf4e8e96e, 12, 6, 0x655b59c3, 0x00000000, 0x396ff928, 0x06cc5e8a);
    StepTo(53, 0xf4e8e96e, 0x06cc5e8a, 0x8bf025c4, 0xb298cefd, 3, 10, 0x8f0ccc92, 0x00000000, 0xc41f5a4e, 0x5b0d97aa);
    StepTo(54, 0xb298cefd, 0x5b0d97aa, 0x06cc5e8a, 0x8bf025c4, 10, 15, 0xffeff47d, 0x00000000, 0x79c38131, 0x7d632dd0);
    StepTo(55, 0x8bf025c4, 0x7d632dd0, 0x5b0d97aa, 0x06cc5e8a, 1, 21, 0x85845dd1, 0x00000000, 0xa67e3a5f, 0x3bfa2c27);
  }

  lemma Steps57To60()
    requires Reaches(56, 0x06cc5e8a, 0x3bfa2c27, 0x7d632dd0, 0x5b0d97aa)
    ensures Reaches(60, 0x7f81cc35, 0x7327d604, 0x4f9dbe3f, 0x094454ab)
  {
    hide Reaches, Row, WordAt;
    WordsAre();
    Rows57To60();
    StepTo(56, 0x06cc5e8a, 0x3bfa2c27, 0x7d632dd0, 0x5b0d97aa, 8, 6, 0x6fa87e4f, 0x00000000, 0xc29941a7, 0x7f81cc35);
    StepTo(57, 0x5b0d97aa, 0x7f81cc35, 0x3bfa2c27, 0x7d632dd0, 15, 10, 0xfe2ce6e0, 0x00000000, 0xc467f218, 0x094454ab);
    StepTo(58, 0x7d632dd0, 0x094454ab, 0x7f81cc35, 0x3bfa2c27, 6, 15, 0xa3014314, 0x00000000, 0xb2c41bce, 0x4f9dbe3f);
    StepTo(59, 0x3bfa2c27, 0x4f9dbe3f, 0x094454ab, 0x7f81cc35, 13, 21, 0x4e0811a1, 0x00000000, 0xc6bbeb54, 0x7327d604);
  }

  lemma Steps61To64()
    requires Reaches(60, 0x7f81cc35, 0x7327d604, 0x4f9dbe3f, 0x094454ab)
    ensures Reaches(64, 0x310ade8f, 0xc08226b3, 0xe484b9d8, 0x624d8cb2)
  {
    hide Reaches, Row, WordAt;
    WordsAre();
    Rows61To64();
    StepTo(60, 0x7f81cc35, 0x7327d604, 0x4f9dbe3f, 0x094454ab, 4, 6, 0xf7537e82, 0x00000000, 0xb822416b, 0x310ade8f);
    StepTo(61, 0x094454ab, 0x310ade8f, 0x7327d604, 0x4f9dbe3f, 11, 10, 0xbd3af235, 0x00000000, 0xc24d09cb, 0x624d8cb2);
    StepTo(62, 0x4f9dbe3f, 0x624d8cb2, 0x310ade8f, 0x7327d604, 2, 15, 0x2ad7d2bb, 0x00000000, 0xdfd77374, 0xe484b9d8);
    StepTo(63, 0x7327d604, 0xe484b9d8, 0x624d8cb2, 0x310ade8f, 9, 21, 0xeb86d391, 0x00000000, 0x8cb8354a, 0xc08226b3);
  }

  lemma AllSteps()
    ensures Reaches(64, 0x310ade8f, 0xc08226b3, 0xe484b9d8, 0x624d8cb2)
  {
    hide Reaches;
    assert Reaches(0, INITIAL.a, INITIAL.b, INITIAL.c, INITIAL.d) by { NoSteps(); }
    Steps1To4();
    Steps5To8();
    Steps9To12();
    Steps13To16();
    Steps17To20();
    Steps21To24();
    Steps25To28();
    Steps29To32();
    Steps33To36();
    Steps37To40();
    Steps41To44();
    Steps45To48();
    Steps49To52();
    Steps53To56();
    Steps57To60();
    Steps61To64();
  }

  lemma NoSteps()
    ensures Reaches(0, INITIAL.a, INITIAL.b, INITIAL.c, INITIAL.d)
  {
  }

  // ---------------------------------------------------------------- the message and its padding

  const ABC: seq<Byte> := [0x61, 0x62, 0x63]

  lemma EncodeSnoc(words: seq<Word>, w: Word)
    ensures Encode(words + [w]) == Encode(words) + EncodeWord(w)
  {
    hide EncodeWord;
    assert (words + [w])[..|words|] == words;
  }

  lemma {:induction false} EncodeZeros(w: Word, n: nat)
    ensures Encode([w] + seq(n, _ => 0)) == EncodeWord(w) + Zeros(4 * n)
  {
    if n == 0 {
      EncodeSnoc([], w);
      assert [w] + seq(n, _ => 0) == [] + [w];
    } else {
      hide EncodeWord;
      EncodeZeros(w, n - 1);
      EncodeSnoc([w] + seq(n - 1, _ => 0), 0);
      assert [w] + seq(n, _ => 0) == [w] + seq(n - 1, _ => 0) + [0];
      assert EncodeWord(0) == Zeros(4) by { ZeroWord(); }
      assert Zeros(4 * (n - 1)) + Zeros(4) == Zeros(4 * n);
      assert EncodeWord(w) + Zeros(4 * (n - 1)) + Zeros(4) == EncodeWord(w) + (Zeros(4 * (n - 1)) + Zeros(4));
    }
  }

  lemma ZeroWord()
    ensures EncodeWord(0) == Zeros(4) && EncodeWord(24) == [24, 0, 0, 0]
    ensures EncodeWord(0x80636261) == ABC + [0x80]
  {
  }

  lemma EncodedWords()
    ensures Encode(WORDS) == Padded(ABC)
  {
    hide Encode, Padded;
    WordsEncoded();
    PaddedIs();
    Regroup(Zeros(52));
  }

  lemma Regroup(zeros: seq<Byte>)
    ensures ABC + [0x80] + zeros + [24, 0, 0, 0] + Zeros(4) == ABC + ([0x80] + zeros) + ([24, 0, 0, 0] + Zeros(4))
  {
    hide Zeros;
  }

  lemma WordsEncoded()
    ensures Encode(WORDS) == ABC + [0x80] + Zeros(52) + [24, 0, 0, 0] + Zeros(4)
  {
    ZeroWord();
    hide EncodeWord, Encode, Zeros;
    var first: seq<Word> := [0x80636261] + seq(13, _ => 0);
    assert WORDS == first + [24] + [0];
    EncodeZeros(0x80636261, 13);
    EncodeSnoc(first, 24);
    EncodeSnoc(first + [24], 0);
  }

  lemma PaddedIs()
    ensures Padded(ABC) == ABC + ([0x80] + Zeros(52)) + ([24, 0, 0, 0] + Zeros(4))
  {
    hide Encode, LengthWords, Padding, Zeros, PadLength;
    LengthIs();
    PaddingIs();
    assert |ABC| == 3;
  }

  lemma PaddingIs()
    ensures Padding(3) == [0x80] + Zeros(52)
  {
    assert PadLength(3) == 53;
    hide Zeros;
  }

  lemma LengthIs()
    ensures Encode(LengthWords(3)) == [24, 0, 0, 0] + Zeros(4)
  {
    hide Encode, EncodeWord, LengthWords, Zeros;
    LengthThree();
    EncodeTwo(24, 0);
    ZeroWord();
  }

  lemma LengthThree()
    ensures LengthWords(3) == [24, 0]
  {
    assert 8 * 3 % 0x1_0000_0000 == 24 && 8 * 3 / 0x1_0000_0000 % 0x1_0000_0000 == 0;
  }

  lemma EncodeTwo(a: Word, b: Word)
    ensures Encode([a, b]) == EncodeWord(a) + EncodeWord(b)
  {
    hide EncodeWord;
    assert [a, b][..1] == [a] && [a][..0] == [];
    assert Encode([a]) == [] + EncodeWord(a);
  }

  lemma OneBlock(s: Digest, block: seq<Byte>)
    requires |block| == BLOCK
    ensures CompressAll(s, block) == Compress(s, block)
  {
    hide Compress;
    assert [] + block == block;
    CompressAllBlock(s, [], block);
  }

  /** MD5 ("abc"). */
  lemma AbcDigest()
    ensures Md5([0x61, 0x62, 0x63])
         == [0x90, 0x01, 0x50, 0x98, 0x3c, 0xd2, 0x4f, 0xb0,
             0xd6, 0x96, 0x3f, 0x7d, 0x28, 0xe1, 0x7f, 0x72]
  {
    hide Steps, Encode, Decode, CompressAll, Add;
    EncodedWords();
    DecodeEncode(WORDS);
    AllSteps();
    OneBlock(INITIAL, Padded(ABC));
    Sums();
    EncodedDigest();
  }

  lemma Sums()
    ensures Add(INITIAL, Digest(0x310ade8f, 0xc08226b3, 0xe484b9d8, 0x624d8cb2))
         == Digest(0x98500190, 0xb04fd23c, 0x7d3f96d6, 0x727fe128)
  {
  }

  lemma EncodedDigest()
    ensures Encode([0x98500190, 0xb04fd23c, 0x7d3f96d6, 0x727fe128])
         == [0x90, 0x01, 0x50, 0x98, 0x3c, 0xd2, 0x4f, 0xb0, 0xd6, 0x96, 0x3f, 0x7d, 0x28, 0xe1, 0x7f, 0x72]
  {
    var a: Word, b: Word, c: Word, d: Word := 0x98500190, 0xb04fd23c, 0x7d3f96d6, 0x727fe128;
    assert EncodeWord(a) == [0x90, 0x01, 0x50, 0x98] && EncodeWord(b) == [0x3c, 0xd2, 0x4f, 0xb0];
    assert EncodeWord(c) == [0xd6, 0x96, 0x3f, 0x7d] && EncodeWord(d) == [0x28, 0xe1, 0x7f, 0x72];
    hide EncodeWord;
    assert [a, b, c, d] == [] + [a] + [b] + [c] + [d];
    EncodeSnoc([], a);
    EncodeSnoc([] + [a], b);
    EncodeSnoc([] + [a] + [b], c);
    EncodeSnoc([] + [a] + [b] + [c], d);
  }

  /** The two digits of byte `k` stand at 2k and 2k + 1. */
  lemma {:induction false} HexAt(bytes: seq<Byte>, k: nat)
    requires k < |bytes|
    ensures HexText(bytes)[2 * k..2 * k + 2] == HexByte(bytes[k])
  {
    hide HexByte;
    var n := |bytes| - 1;
    var before, last := HexText(bytes[..n]), HexByte(bytes[n]);
    if k < n {
      HexAt(bytes[..n], k);
      assert (before + last)[2 * k..2 * k + 2] == before[2 * k..2 * k + 2];
    } else {
      assert (before + last)[2 * n..2 * n + 2] == last;
    }
  }

  /** The high digit comes first, in base sixteen and lower case. */
  lemma HexDigitsAre(b: Byte)
    ensures HexByte(b) == ["0123456789abcdef"[(b / 16) as nat], "0123456789abcdef"[(b % 16) as nat]]
  {
  }

  lemma DigitsOfDigest()
    ensures HexByte(0x90) == "90" && HexByte(0x01) == "01" && HexByte(0x50) == "50" && HexByte(0x98) == "98"
    ensures HexByte(0x3c) == "3c" && HexByte(0xd2) == "d2" && HexByte(0x4f) == "4f" && HexByte(0xb0) == "b0"
    ensures HexByte(0xd6) == "d6" && HexByte(0x96) == "96" && HexByte(0x3f) == "3f" && HexByte(0x7d) == "7d"
    ensures HexByte(0x28) == "28" && HexByte(0xe1) == "e1" && HexByte(0x7f) == "7f" && HexByte(0x72) == "72"
  {
  }

  lemma {:induction false} HexConcat(a: seq<Byte>, b: seq<Byte>)
    ensures HexText(a + b) == HexText(a) + HexText(b)
  {
    hide HexByte;
    if b == [] {
      assert a + b == a;
    } else {
      var n := |b| - 1;
      assert (a + b)[..|a| + n] == a + b[..n];
      HexConcat(a, b[..n]);
      assert HexText(a) + HexText(b[..n]) + HexByte(b[n]) == HexText(a) + (HexText(b[..n]) + HexByte(b[n]));
    }
  }

  lemma HexFour(a: Byte, b: Byte, c: Byte, d: Byte)
    ensures HexText([a, b, c, d]) == HexByte(a) + HexByte(b) + HexByte(c) + HexByte(d)
  {
    hide HexByte;
    assert [a, b, c, d][..3] == [a, b, c] && [a, b, c][..2] == [a, b] && [a, b][..1] == [a] && [a][..0] == [];
    assert HexText([a]) == HexByte(a);
    assert HexText([a, b]) == HexByte(a) + HexByte(b);
    assert HexText([a, b, c]) == HexByte(a) + HexByte(b) + HexByte(c);
  }

  /** The text of that digest. */
  lemma AbcText()
    ensures HexText(Md5([0x61, 0x62, 0x63])) == "900150983cd24fb0d6963f7d28e17f72"
  {
    hide Md5, HexByte, HexText;
    AbcDigest();
    DigitsOfDigest();
    var p: seq<Byte>, q: seq<Byte> := [0x90, 0x01, 0x50, 0x98], [0x3c, 0xd2, 0x4f, 0xb0];
    var r: seq<Byte>, s: seq<Byte> := [0xd6, 0x96, 0x3f, 0x7d], [0x28, 0xe1, 0x7f, 0x72];
    HexFour(0x90, 0x01, 0x50, 0x98);
    HexFour(0x3c, 0xd2, 0x4f, 0xb0);
    HexFour(0xd6, 0x96, 0x3f, 0x7d);
    HexFour(0x28, 0xe1, 0x7f, 0x72);
    assert Md5([0x61, 0x62, 0x63]) == (p + q) + (r + s);
    HexConcat(p + q, r + s);
    HexConcat(p, q);
    HexConcat(r, s);
    Joined(HexText(p), HexText(q), HexText(r), HexText(s));
  }

  lemma Joined(p: string, q: string, r: string, s: string)
    requires p == "90" + "01" + "50" + "98" && q == "3c" + "d2" + "4f" + "b0"
    requires r == "d6" + "96" + "3f" + "7d" && s == "28" + "e1" + "7f" + "72"
    ensures (p + q) + (r + s) == "900150983cd24fb0d6963f7d28e17f72"
  {
  }
}
