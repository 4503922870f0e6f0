/** The digest of "abc" in the test suite of RFC 1321 (section A.5): the definition that the
    program is proved to compute is the one of the standard, with its constants, rotations and
    byte order. */
module Md5TestSuite {
  import opened Md5Words
  import opened Md5Transform
  import opened Md5Spec

  /** "abc", padded, with its length in bits */
  const ABC: Block := [0x80636261, 0, 0, 0, 0, 0, 0, 0, 0, 0, 0, 0, 0, 0, 0x18, 0]

  lemma PaddedAbc()
    ensures MessageWords([0x61, 0x62, 0x63]) == ABC
  {
    var m: seq<Byte> := [0x61, 0x62, 0x63];
    var p := Padded(m);
    assert PadLength(3) == 53;
    assert p == [0x61, 0x62, 0x63, 0x80] + seq(52, _ => 0);
    assert WordOf(0x61, 0x62, 0x63, 0x80) == 0x80636261 && WordOf(0, 0, 0, 0) == 0;
    assert LengthWords(3) == [24, 0];
    var ws := Words(p);
    assert forall i :: 1 <= i < 14 ==> ws[i] == 0;
    assert ws + [24, 0] == ABC;
  }

  lemma FFGives(a: Word, b: Word, c: Word, d: Word, k: nat, w: Word, s: Shift, ac: Word, i: nat, e: Word)
    requires 0 <= i < 16 && k == WordIndex(0, i % 16) && s == Rotation(0, i) && ac == T(i)
    requires ABC[k] == w && FF(a, b, c, d, w, s, ac) == e
    ensures Operations(Registers(a, b, c, d), ABC, i, 64) == Operations(Registers(d, e, b, c), ABC, i + 1, 64)
  {
    hide Operations, FF;
    FFStep(a, b, c, d, ABC, k, s, ac, i);
  }

  lemma GGGives(a: Word, b: Word, c: Word, d: Word, k: nat, w: Word, s: Shift, ac: Word, i: nat, e: Word)
    requires 16 <= i < 32 && k == WordIndex(1, i % 16) && s == Rotation(1, i) && ac == T(i)
    requires ABC[k] == w && GG(a, b, c, d, w, s, ac) == e
    ensures Operations(Registers(a, b, c, d), ABC, i, 64) == Operations(Registers(d, e, b, c), ABC, i + 1, 64)
  {
    hide Operations, GG;
    GGStep(a, b, c, d, ABC, k, s, ac, i);
  }

  lemma HHGives(a: Word, b: Word, c: Word, d: Word, k: nat, w: Word, s: Shift, ac: Word, i: nat, e: Word)
    requires 32 <= i < 48 && k == WordIndex(2, i % 16) && s == Rotation(2, i) && ac == T(i)
    requires ABC[k] == w && HH(a, b, c, d, w, s, ac) == e
    ensures Operations(Registers(a, b, c, d), ABC, i, 64) == Operations(Registers(d, e, b, c), ABC, i + 1, 64)
  {
    hide Operations, HH;
    HHStep(a, b, c, d, ABC, k, s, ac, i);
  }

  lemma IIGives(a: Word, b: Word, c: Word, d: Word, k: nat, w: Word, s: Shift, ac: Word, i: nat, e: Word)
    requires 48 <= i < 64 && k == WordIndex(3, i % 16) && s == Rotation(3, i) && ac == T(i)
    requires ABC[k] == w && II(a, b, c, d, w, s, ac) == e
    ensures Operations(Registers(a, b, c, d), ABC, i, 64) == Operations(Registers(d, e, b, c), ABC, i + 1, 64)
  {
    hide Operations, II;
    IIStep(a, b, c, d, ABC, k, s, ac, i);
  }

  lemma From0()
    ensures Operations(Registers(0x67452301, 0xefcdab89, 0x98badcfe, 0x10325476), ABC, 0, 64) ==
            Operations(Registers(0xd6d117b4, 0x7ad956f2, 0x2f6fbd72, 0x344a8432), ABC, 4, 64)
  {
    hide Operations;
    FFGives(0x67452301, 0xefcdab89, 0x98badcfe, 0x10325476, 0, 0x80636261, 7, 0xd76aa478, 0, 0xd6d117b4);
    FFGives(0x10325476, 0xd6d117b4, 0xefcdab89, 0x98badcfe, 1, 0, 12, 0xe8c7b756, 1, 0x344a8432);
    FFGives(0x98badcfe, 0x344a8432, 0xd6d117b4, 0xefcdab89, 2, 0, 17, 0x242070db, 2, 0x2f6fbd72);
    FFGives(0xefcdab89, 0x2f6fbd72, 0x344a8432, 0xd6d117b4, 3, 0, 22, 0xc1bdceee, 3, 0x7ad956f2);
  }

  lemma From4()
    ensures Operations(Registers(0xd6d117b4, 0x7ad956f2, 0x2f6fbd72, 0x344a8432), ABC, 4, 64) ==
            Operations(Registers(0xc73741ef, 0x928d99f6, 0x207dc67b, 0x8bac3051), ABC, 8, 64)
  {
    hide Operations;
    FFGives(0xd6d117b4, 0x7ad956f2, 0x2f6fbd72, 0x344a8432, 4, 0, 7, 0xf57c0faf, 4, 0xc73741ef);
    FFGives(0x344a8432, 0xc73741ef, 0x7ad956f2, 0x2f6fbd72, 5, 0, 12, 0x4787c62a, 5, 0x8bac3051);
    FFGives(0x2f6fbd72, 0x8bac3051, 0xc73741ef, 0x7ad956f2, 6, 0, 17, 0xa8304613, 6, 0x207dc67b);
    FFGives(0x7ad956f2, 0x207dc67b, 0x8bac3051, 0xc73741ef, 7, 0, 22, 0xfd469501, 7, 0x928d99f6);
  }

  lemma From8()
    ensures Operations(Registers(0xc73741ef, 0x928d99f6, 0x207dc67b, 0x8bac3051), ABC, 8, 64) ==
            Operations(Registers(0x854b3712, 0x5ed49596, 0x3020401c, 0x74e2f284), ABC, 12, 64)
  {
    hide Operations;
    FFGives(0xc73741ef, 0x928d99f6, 0x207dc67b, 0x8bac3051, 8, 0, 7, 0x698098d8, 8, 0x854b3712);
    FFGives(0x8bac3051, 0x854b3712, 0x928d99f6, 0x207dc67b, 9, 0, 12, 0x8b44f7af, 9, 0x74e2f284);
    FFGives(0x207dc67b, 0x74e2f284, 0x854b3712, 0x928d99f6, 10, 0, 17, 0xffff5bb1, 10, 0x3020401c);
    FFGives(0x928d99f6, 0x3020401c, 0x74e2f284, 0x854b3712, 11, 0, 22, 0x895cd7be, 11, 0x5ed49596);
  }

  lemma From12()
    ensures Operations(Registers(0x854b3712, 0x5ed49596, 0x3020401c, 0x74e2f284), ABC, 12, 64) ==
            Operations(Registers(0xdda9b9a6, 0x72aff2e0, 0xe396856b, 0xa1051895), ABC, 16, 64)
  {
    hide Operations;
    FFGives(0x854b3712, 0x5ed49596, 0x3020401c, 0x74e2f284, 12, 0, 7, 0x6b901122, 12, 0xdda9b9a6);
    FFGives(0x74e2f284, 0xdda9b9a6, 0x5ed49596, 0x3020401c, 13, 0, 12, 0xfd987193, 13, 0xa1051895);
    FFGives(0x3020401c, 0xa1051895, 0xdda9b9a6, 0x5ed49596, 14, 0x18, 17, 0xa679438e, 14, 0xe396856b);
    FFGives(0x5ed49596, 0xe396856b, 0xa1051895, 0xdda9b9a6, 15, 0, 22, 0x49b40821, 15, 0x72aff2e0);
  }

  lemma From16()
    ensures Operations(Registers(0xdda9b9a6, 0x72aff2e0, 0xe396856b, 0xa1051895), ABC, 16, 64) ==
            Operations(Registers(0x3e9e9126, 0xb5b204e4, 0xe25e1652, 0x4a1d804e), ABC, 20, 64)
  {
    hide Operations;
    GGGives(0xdda9b9a6, 0x72aff2e0, 0xe396856b, 0xa1051895, 1, 0, 5, 0xf61e2562, 16, 0x3e9e9126);
    GGGives(0xa1051895, 0x3e9e9126, 0x72aff2e0, 0xe396856b, 6, 0, 9, 0xc040b340, 17, 0x4a1d804e);
    GGGives(0xe396856b, 0x4a1d804e, 0x3e9e9126, 0x72aff2e0, 11, 0, 14, 0x265e5a51, 18, 0xe25e1652);
    GGGives(0x72aff2e0, 0xe25e1652, 0x4a1d804e, 0x3e9e9126, 0, 0x80636261, 20, 0xe9b6c7aa, 19, 0xb5b204e4);
  }

  lemma From20()
    ensures Operations(Registers(0x3e9e9126, 0xb5b204e4, 0xe25e1652, 0x4a1d804e), ABC, 20, 64) ==
            Operations(Registers(0x59a8ffda, 0x47092c07, 0xabfc7920, 0x6d002f1e), ABC, 24, 64)
  {
    hide Operations;
    GGGives(0x3e9e9126, 0xb5b204e4, 0xe25e1652, 0x4a1d804e, 5, 0, 5, 0xd62f105d, 20, 0x59a8ffda);
    GGGives(0x4a1d804e, 0x59a8ffda, 0xb5b204e4, 0xe25e1652, 10, 0, 9, 0x02441453, 21, 0x6d002f1e);
    GGGives(0xe25e1652, 0x6d002f1e, 0x59a8ffda, 0xb5b204e4, 15, 0, 14, 0xd8a1e681, 22, 0xabfc7920);
    GGGives(0xb5b204e4, 0xabfc7920, 0x6d002f1e, 0x59a8ffda, 4, 0, 20, 0xe7d3fbc8, 23, 0x47092c07);
  }

  lemma From24()
    ensures Operations(Registers(0x59a8ffda, 0x47092c07, 0xabfc7920, 0x6d002f1e), ABC, 24, 64) ==
            Operations(Registers(0xb7f268cf, 0x786acb8f, 0xfe1623b1, 0x09388eff), ABC, 28, 64)
  {
    hide Operations;
    GGGives(0x59a8ffda, 0x47092c07, 0xabfc7920, 0x6d002f1e, 9, 0, 5, 0x21e1cde6, 24, 0xb7f268cf);
    GGGives(0x6d002f1e, 0xb7f268cf, 0x47092c07, 0xabfc7920, 14, 0x18, 9, 0xc33707d6, 25, 0x09388eff);
    GGGives(0xabfc7920, 0x09388eff, 0xb7f268cf, 0x47092c07, 3, 0, 14, 0xf4d50d87, 26, 0xfe1623b1);
    GGGives(0x47092c07, 0xfe1623b1, 0x09388eff, 0xb7f268cf, 8, 0, 20, 0x455a14ed, 27, 0x786acb8f);
  }

  lemma From28()
    ensures Operations(Registers(0xb7f268cf, 0x786acb8f, 0xfe1623b1, 0x09388eff), ABC, 28, 64) ==
            Operations(Registers(0x790a77fb, 0x726342d3, 0xa62884aa, 0x9f47e4f8), ABC, 32, 64)
  {
    hide Operations;
    GGGives(0xb7f268cf, 0x786acb8f, 0xfe1623b1, 0x09388eff, 13, 0, 5, 0xa9e3e905, 28, 0x790a77fb);
    GGGives(0x09388eff, 0x790a77fb, 0x786acb8f, 0xfe1623b1, 2, 0, 9, 0xfcefa3f8, 29, 0x9f47e4f8);
    GGGives(0xfe1623b1, 0x9f47e4f8, 0x790a77fb, 0x786acb8f, 7, 0, 14, 0x676f02d9, 30, 0xa62884aa);
    GGGives(0x786acb8f, 0xa62884aa, 0x9f47e4f8, 0x790a77fb, 12, 0, 20, 0x8d2a4c8a, 31, 0x726342d3);
  }

  lemma From32()
    ensures Operations(Registers(0x790a77fb, 0x726342d3, 0xa62884aa, 0x9f47e4f8), ABC, 32, 64) ==
            Operations(Registers(0xb3707ebf, 0x3b0875c7, 0x8d212ff5, 0x60127b2e), ABC, 36, 64)
  {
    hide Operations;
    HHGives(0x790a77fb, 0x726342d3, 0xa62884aa, 0x9f47e4f8, 5, 0, 4, 0xfffa3942, 32, 0xb3707ebf);
    HHGives(0x9f47e4f8, 0xb3707ebf, 0x726342d3, 0xa62884aa, 8, 0, 11, 0x8771f681, 33, 0x60127b2e);
    HHGives(0xa62884aa, 0x60127b2e, 0xb3707ebf, 0x726342d3, 11, 0, 16, 0x6d9d6122, 34, 0x8d212ff5);
    HHGives(0x726342d3, 0x8d212ff5, 0x60127b2e, 0xb3707ebf, 14, 0x18, 23, 0xfde5380c, 35, 0x3b0875c7);
  }

  lemma From36()
    ensures Operations(Registers(0xb3707ebf, 0x3b0875c7, 0x8d212ff5, 0x60127b2e), ABC, 36, 64) ==
            Operations(Registers(0x21b117b9, 0x5a2f5ea5, 0x3575227e, 0x6e7429d5), ABC, 40, 64)
  {
    hide Operations;
    HHGives(0xb3707ebf, 0x3b0875c7, 0x8d212ff5, 0x60127b2e, 1, 0, 4, 0xa4beea44, 36, 0x21b117b9);
    HHGives(0x60127b2e, 0x21b117b9, 0x3b0875c7, 0x8d212ff5, 4, 0, 11, 0x4bdecfa9, 37, 0x6e7429d5);
    HHGives(0x8d212ff5, 0x6e7429d5, 0x21b117b9, 0x3b0875c7, 7, 0, 16, 0xf6bb4b60, 38, 0x3575227e);
    HHGives(0x3b0875c7, 0x3575227e, 0x6e7429d5, 0x21b117b9, 10, 0, 23, 0xbebfbc70, 39, 0x5a2f5ea5);
  }

  lemma From40()
    ensures Operations(Registers(0x21b117b9, 0x5a2f5ea5, 0x3575227e, 0x6e7429d5), ABC, 40, 64) ==
            Operations(Registers(0x11de1779, 0x4c6124f4, 0x31c465ca, 0xfadcaa38), ABC, 44, 64)
  {
    hide Operations;
    HHGives(0x21b117b9, 0x5a2f5ea5, 0x3575227e, 0x6e7429d5, 13, 0, 4, 0x289b7ec6, 40, 0x11de1779);
    HHGives(0x6e7429d5, 0x11de1779, 0x5a2f5ea5, 0x3575227e, 0, 0x80636261, 11, 0xeaa127fa, 41, 0xfadcaa38);
    HHGives(0x3575227e, 0xfadcaa38, 0x11de1779, 0x5a2f5ea5, 3, 0, 16, 0xd4ef3085, 42, 0x31c465ca);
    HHGives(0x5a2f5ea5, 0x31c465ca, 0xfadcaa38, 0x11de1779, 6, 0, 23, 0x04881d05, 43, 0x4c6124f4);
  }

  lemma From44()
    ensures Operations(Registers(0x11de1779, 0x4c6124f4, 0x31c465ca, 0xfadcaa38), ABC, 44, 64) ==
            Operations(Registers(0x7f2e507b, 0x7beb9700, 0x8fae6399, 0x99d9679d), ABC, 48, 64)
  {
    hide Operations;
    HHGives(0x11de1779, 0x4c6124f4, 0x31c465ca, 0xfadcaa38, 9, 0, 4, 0xd9d4d039, 44, 0x7f2e507b);
    HHGives(0xfadcaa38, 0x7f2e507b, 0x4c6124f4, 0x31c465ca, 12, 0, 11, 0xe6db99e5, 45, 0x99d9679d);
    HHGives(0x31c465ca, 0x99d9679d, 0x7f2e507b, 0x4c6124f4, 15, 0, 16, 0x1fa27cf8, 46, 0x8fae6399);
    HHGives(0x4c6124f4, 0x8fae6399, 0x99d9679d, 0x7f2e507b, 2, 0, 23, 0xc4ac5665, 47, 0x7beb9700);
  }

  lemma From48()
    ensures Operations(Registers(0x7f2e507b, 0x7beb9700, 0x8fae6399, 0x99d9679d), ABC, 48, 64) ==
            Operations(Registers(0x7b201df8, 0x8bf025c4, 0xb298cefd, 0xf4e8e96e), ABC, 52, 64)
  {
    hide Operations;
    IIGives(0x7f2e507b, 0x7beb9700, 0x8fae6399, 0x99d9679d, 0, 0x80636261, 6, 0xf4292244, 48, 0x7b201df8);
    IIGives(0x99d9679d, 0x7b201df8, 0x7beb9700, 0x8fae6399, 7, 0, 10, 0x432aff97, 49, 0xf4e8e96e);
    IIGives(0x8fae6399, 0xf4e8e96e, 0x7b201df8, 0x7beb9700, 14, 0x18, 15, 0xab9423a7, 50, 0xb298cefd);
    IIGives(0x7beb9700, 0xb298cefd, 0xf4e8e96e, 0x7b201df8, 5, 0, 21, 0xfc93a039, 51, 0x8bf025c4);
  }

  lemma From52()
    ensures Operations(Registers(0x7b201df8, 0x8bf025c4, 0xb298cefd, 0xf4e8e96e), ABC, 52, 64) ==
            Operations(Registers(0x06cc5e8a, 0x3bfa2c27, 0x7d632dd0, 0x5b0d97aa), ABC, 56, 64)
  {
    hide Operations;
    IIGives(0x7b201df8, 0x8bf025c4, 0xb298cefd, 0xf4e8e96e, 12, 0, 6, 0x655b59c3, 52, 0x06cc5e8a);
    IIGives(0xf4e8e96e, 0x06cc5e8a, 0x8bf025c4, 0xb298cefd, 3, 0, 10, 0x8f0ccc92, 53, 0x5b0d97aa);
    IIGives(0xb298cefd, 0x5b0d97aa, 0x06cc5e8a, 0x8bf025c4, 10, 0, 15, 0xffeff47d, 54, 0x7d632dd0);
    IIGives(0x8bf025c4, 0x7d632dd0, 0x5b0d97aa, 0x06cc5e8a, 1, 0, 21, 0x85845dd1, 55, 0x3bfa2c27);
  }

  lemma From56()
    ensures Operations(Registers(0x06cc5e8a, 0x3bfa2c27, 0x7d632dd0, 0x5b0d97aa), ABC, 56, 64) ==
            Operations(Registers(0x7f81cc35, 0x7327d604, 0x4f9dbe3f, 0x094454ab), ABC, 60, 64)
  {
    hide Operations;
    IIGives(0x06cc5e8a, 0x3bfa2c27, 0x7d632dd0, 0x5b0d97aa, 8, 0, 6, 0x6fa87e4f, 56, 0x7f81cc35);
    IIGives(0x5b0d97aa, 0x7f81cc35, 0x3bfa2c27, 0x7d632dd0, 15, 0, 10, 0xfe2ce6e0, 57, 0x094454ab);
    IIGives(0x7d632dd0, 0x094454ab, 0x7f81cc35, 0x3bfa2c27, 6, 0, 15, 0xa3014314, 58, 0x4f9dbe3f);
    IIGives(0x3bfa2c27, 0x4f9dbe3f, 0x094454ab, 0x7f81cc35, 13, 0, 21, 0x4e0811a1, 59, 0x7327d604);
  }

  lemma From60()
    ensures Operations(Registers(0x7f81cc35, 0x7327d604, 0x4f9dbe3f, 0x094454ab), ABC, 60, 64) ==
            Operations(Registers(0x310ade8f, 0xc08226b3, 0xe484b9d8, 0x624d8cb2), ABC, 64, 64)
  {
    hide Operations;
    IIGives(0x7f81cc35, 0x7327d604, 0x4f9dbe3f, 0x094454ab, 4, 0, 6, 0xf7537e82, 60, 0x310ade8f);
    IIGives(0x094454ab, 0x310ade8f, 0x7327d604, 0x4f9dbe3f, 11, 0, 10, 0xbd3af235, 61, 0x624d8cb2);
    IIGives(0x4f9dbe3f, 0x624d8cb2, 0x310ade8f, 0x7327d604, 2, 0, 15, 0x2ad7d2bb, 62, 0xe484b9d8);
    IIGives(0x7327d604, 0xe484b9d8, 0x624d8cb2, 0x310ade8f, 9, 0, 21, 0xeb86d391, 63, 0xc08226b3);
  }

  lemma DigestOfAbc()
    ensures Digest([0x61, 0x62, 0x63]) ==
            [0x90, 0x01, 0x50, 0x98, 0x3c, 0xd2, 0x4f, 0xb0, 0xd6, 0x96, 0x3f, 0x7d, 0x28, 0xe1, 0x7f, 0x72]
  {
    hide Operations, MessageWords;
    PaddedAbc();
    From0(); From4(); From8(); From12(); From16(); From20(); From24(); From28();
    From32(); From36(); From40(); From44(); From48(); From52(); From56(); From60();
    NoOperations(Registers(0x310ade8f, 0xc08226b3, 0xe484b9d8, 0x624d8cb2), ABC);
    assert ABC[..0] == [] && ABC[0..] == ABC;
    assert ProcessBlock(INITIAL, ABC) == Registers(0x98500190, 0xb04fd23c, 0x7d3f96d6, 0x727fe128);
    assert Fold(INITIAL, ABC) == Registers(0x98500190, 0xb04fd23c, 0x7d3f96d6, 0x727fe128);
  }
}
