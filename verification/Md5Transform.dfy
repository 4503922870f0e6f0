/** Transform: the 64 macro calls of the program, one method per round, each proved to be
    sixteen operations of the table-driven definition. */
module Md5Transform {
  import opened Md5Words

  lemma FFIsOperation(a: Word, b: Word, c: Word, d: Word, x: Block, k: nat, s: Shift, ac: Word, i: nat)
    requires 0 <= i < 16 && k == WordIndex(0, i % 16) && s == Rotation(0, i) && ac == T(i)
    ensures Operation(Registers(a, b, c, d), x, i) == Registers(d, FF(a, b, c, d, x[k], s, ac), b, c)
  {
    hide RotateLeft, F, Add, Sum, MacroSum;
    assert i / 16 == 0;
    Sums(a, F(b, c, d), x[k], ac);
    Commutes(b, RotateLeft(MacroSum(a, F(b, c, d), x[k], ac), s));
  }

  lemma GGIsOperation(a: Word, b: Word, c: Word, d: Word, x: Block, k: nat, s: Shift, ac: Word, i: nat)
    requires 16 <= i < 32 && k == WordIndex(1, i % 16) && s == Rotation(1, i) && ac == T(i)
    ensures Operation(Registers(a, b, c, d), x, i) == Registers(d, GG(a, b, c, d, x[k], s, ac), b, c)
  {
    hide RotateLeft, G, Add, Sum, MacroSum;
    assert i / 16 == 1;
    Sums(a, G(b, c, d), x[k], ac);
    Commutes(b, RotateLeft(MacroSum(a, G(b, c, d), x[k], ac), s));
  }

  lemma HHIsOperation(a: Word, b: Word, c: Word, d: Word, x: Block, k: nat, s: Shift, ac: Word, i: nat)
    requires 32 <= i < 48 && k == WordIndex(2, i % 16) && s == Rotation(2, i) && ac == T(i)
    ensures Operation(Registers(a, b, c, d), x, i) == Registers(d, HH(a, b, c, d, x[k], s, ac), b, c)
  {
    hide RotateLeft, H, Add, Sum, MacroSum;
    assert i / 16 == 2;
    Sums(a, H(b, c, d), x[k], ac);
    Commutes(b, RotateLeft(MacroSum(a, H(b, c, d), x[k], ac), s));
  }

  lemma IIIsOperation(a: Word, b: Word, c: Word, d: Word, x: Block, k: nat, s: Shift, ac: Word, i: nat)
    requires 48 <= i < 64 && k == WordIndex(3, i % 16) && s == Rotation(3, i) && ac == T(i)
    ensures Operation(Registers(a, b, c, d), x, i) == Registers(d, II(a, b, c, d, x[k], s, ac), b, c)
  {
    hide RotateLeft, I, Add, Sum, MacroSum;
    assert i / 16 == 3;
    Sums(a, I(b, c, d), x[k], ac);
    Commutes(b, RotateLeft(MacroSum(a, I(b, c, d), x[k], ac), s));
  }

  lemma Sums(a: Word, f: Word, x: Word, ac: Word)
    ensures MacroSum(a, f, x, ac) == Sum(a, f, x, ac)
  {
  }

  lemma Commutes(x: Word, y: Word)
    ensures Add(x, y) == Add(y, x)
  {
  }

  lemma FFStep(a: Word, b: Word, c: Word, d: Word, x: Block, k: nat, s: Shift, ac: Word, i: nat)
    requires 0 <= i < 16 && k == WordIndex(0, i % 16) && s == Rotation(0, i) && ac == T(i)
    ensures Operations(Registers(a, b, c, d), x, i, 64) ==
            Operations(Registers(d, FF(a, b, c, d, x[k], s, ac), b, c), x, i + 1, 64)
  {
    FFIsOperation(a, b, c, d, x, k, s, ac, i);
  }

  lemma GGStep(a: Word, b: Word, c: Word, d: Word, x: Block, k: nat, s: Shift, ac: Word, i: nat)
    requires 16 <= i < 32 && k == WordIndex(1, i % 16) && s == Rotation(1, i) && ac == T(i)
    ensures Operations(Registers(a, b, c, d), x, i, 64) ==
            Operations(Registers(d, GG(a, b, c, d, x[k], s, ac), b, c), x, i + 1, 64)
  {
    GGIsOperation(a, b, c, d, x, k, s, ac, i);
  }

  lemma HHStep(a: Word, b: Word, c: Word, d: Word, x: Block, k: nat, s: Shift, ac: Word, i: nat)
    requires 32 <= i < 48 && k == WordIndex(2, i % 16) && s == Rotation(2, i) && ac == T(i)
    ensures Operations(Registers(a, b, c, d), x, i, 64) ==
            Operations(Registers(d, HH(a, b, c, d, x[k], s, ac), b, c), x, i + 1, 64)
  {
    HHIsOperation(a, b, c, d, x, k, s, ac, i);
  }

  lemma IIStep(a: Word, b: Word, c: Word, d: Word, x: Block, k: nat, s: Shift, ac: Word, i: nat)
    requires 48 <= i < 64 && k == WordIndex(3, i % 16) && s == Rotation(3, i) && ac == T(i)
    ensures Operations(Registers(a, b, c, d), x, i, 64) ==
            Operations(Registers(d, II(a, b, c, d, x[k], s, ac), b, c), x, i + 1, 64)
  {
    IIIsOperation(a, b, c, d, x, k, s, ac, i);
  }

  method Round1A(a0: Word, b0: Word, c0: Word, d0: Word, x: Block) returns (a: Word, b: Word, c: Word, d: Word)
    ensures Operations(Registers(a0, b0, c0, d0), x, 0, 64) == Operations(Registers(a, b, c, d), x, 8, 64)
  {
    hide Operations, FF;
    a, b, c, d := a0, b0, c0, d0;
    FFStep(a, b, c, d, x, 0, 7, 3614090360, 0);
    a := FF(a, b, c, d, x[0], 7, 3614090360);
    FFStep(d, a, b, c, x, 1, 12, 3905402710, 1);
    d := FF(d, a, b, c, x[1], 12, 3905402710);
    FFStep(c, d, a, b, x, 2, 17, 606105819, 2);
    c := FF(c, d, a, b, x[2], 17, 606105819);
    FFStep(b, c, d, a, x, 3, 22, 3250441966, 3);
    b := FF(b, c, d, a, x[3], 22, 3250441966);
    FFStep(a, b, c, d, x, 4, 7, 4118548399, 4);
    a := FF(a, b, c, d, x[4], 7, 4118548399);
    FFStep(d, a, b, c, x, 5, 12, 1200080426, 5);
    d := FF(d, a, b, c, x[5], 12, 1200080426);
    FFStep(c, d, a, b, x, 6, 17, 2821735955, 6);
    c := FF(c, d, a, b, x[6], 17, 2821735955);
    FFStep(b, c, d, a, x, 7, 22, 4249261313, 7);
    b := FF(b, c, d, a, x[7], 22, 4249261313);
  }

  method Round1B(a0: Word, b0: Word, c0: Word, d0: Word, x: Block) returns (a: Word, b: Word, c: Word, d: Word)
    ensures Operations(Registers(a0, b0, c0, d0), x, 8, 64) == Operations(Registers(a, b, c, d), x, 16, 64)
  {
    hide Operations, FF;
    a, b, c, d := a0, b0, c0, d0;
    FFStep(a, b, c, d, x, 8, 7, 1770035416, 8);
    a := FF(a, b, c, d, x[8], 7, 1770035416);
    FFStep(d, a, b, c, x, 9, 12, 2336552879, 9);
    d := FF(d, a, b, c, x[9], 12, 2336552879);
    FFStep(c, d, a, b, x, 10, 17, 4294925233, 10);
    c := FF(c, d, a, b, x[10], 17, 4294925233);
    FFStep(b, c, d, a, x, 11, 22, 2304563134, 11);
    b := FF(b, c, d, a, x[11], 22, 2304563134);
    FFStep(a, b, c, d, x, 12, 7, 1804603682, 12);
    a := FF(a, b, c, d, x[12], 7, 1804603682);
    FFStep(d, a, b, c, x, 13, 12, 4254626195, 13);
    d := FF(d, a, b, c, x[13], 12, 4254626195);
    FFStep(c, d, a, b, x, 14, 17, 2792965006, 14);
    c := FF(c, d, a, b, x[14], 17, 2792965006);
    FFStep(b, c, d, a, x, 15, 22, 1236535329, 15);
    b := FF(b, c, d, a, x[15], 22, 1236535329);
  }

  method Round2A(a0: Word, b0: Word, c0: Word, d0: Word, x: Block) returns (a: Word, b: Word, c: Word, d: Word)
    ensures Operations(Registers(a0, b0, c0, d0), x, 16, 64) == Operations(Registers(a, b, c, d), x, 24, 64)
  {
    hide Operations, GG;
    a, b, c, d := a0, b0, c0, d0;
    GGStep(a, b, c, d, x, 1, 5, 4129170786, 16);
    a := GG(a, b, c, d, x[1], 5, 4129170786);
    GGStep(d, a, b, c, x, 6, 9, 3225465664, 17);
    d := GG(d, a, b, c, x[6], 9, 3225465664);
    GGStep(c, d, a, b, x, 11, 14, 643717713, 18);
    c := GG(c, d, a, b, x[11], 14, 643717713);
    GGStep(b, c, d, a, x, 0, 20, 3921069994, 19);
    b := GG(b, c, d, a, x[0], 20, 3921069994);
    GGStep(a, b, c, d, x, 5, 5, 3593408605, 20);
    a := GG(a, b, c, d, x[5], 5, 3593408605);
    GGStep(d, a, b, c, x, 10, 9, 38016083, 21);
    d := GG(d, a, b, c, x[10], 9, 38016083);
    GGStep(c, d, a, b, x, 15, 14, 3634488961, 22);
    c := GG(c, d, a, b, x[15], 14, 3634488961);
    GGStep(b, c, d, a, x, 4, 20, 3889429448, 23);
    b := GG(b, c, d, a, x[4], 20, 3889429448);
  }

  method Round2B(a0: Word, b0: Word, c0: Word, d0: Word, x: Block) returns (a: Word, b: Word, c: Word, d: Word)
    ensures Operations(Registers(a0, b0, c0, d0), x, 24, 64) == Operations(Registers(a, b, c, d), x, 32, 64)
  {
    hide Operations, GG;
    a, b, c, d := a0, b0, c0, d0;
    GGStep(a, b, c, d, x, 9, 5, 568446438, 24);
    a := GG(a, b, c, d, x[9], 5, 568446438);
    GGStep(d, a, b, c, x, 14, 9, 3275163606, 25);
    d := GG(d, a, b, c, x[14], 9, 3275163606);
    GGStep(c, d, a, b, x, 3, 14, 4107603335, 26);
    c := GG(c, d, a, b, x[3], 14, 4107603335);
    GGStep(b, c, d, a, x, 8, 20, 1163531501, 27);
    b := GG(b, c, d, a, x[8], 20, 1163531501);
    GGStep(a, b, c, d, x, 13, 5, 2850285829, 28);
    a := GG(a, b, c, d, x[13], 5, 2850285829);
    GGStep(d, a, b, c, x, 2, 9, 4243563512, 29);
    d := GG(d, a, b, c, x[2], 9, 4243563512);
    GGStep(c, d, a, b, x, 7, 14, 1735328473, 30);
    c := GG(c, d, a, b, x[7], 14, 1735328473);
    GGStep(b, c, d, a, x, 12, 20, 2368359562, 31);
    b := GG(b, c, d, a, x[12], 20, 2368359562);
  }

  method Round3A(a0: Word, b0: Word, c0: Word, d0: Word, x: Block) returns (a: Word, b: Word, c: Word, d: Word)
    ensures Operations(Registers(a0, b0, c0, d0), x, 32, 64) == Operations(Registers(a, b, c, d), x, 40, 64)
  {
    hide Operations, HH;
    a, b, c, d := a0, b0, c0, d0;
    HHStep(a, b, c, d, x, 5, 4, 4294588738, 32);
    a := HH(a, b, c, d, x[5], 4, 4294588738);
    HHStep(d, a, b, c, x, 8, 11, 2272392833, 33);
    d := HH(d, a, b, c, x[8], 11, 2272392833);
    HHStep(c, d, a, b, x, 11, 16, 1839030562, 34);
    c := HH(c, d, a, b, x[11], 16, 1839030562);
    HHStep(b, c, d, a, x, 14, 23, 4259657740, 35);
    b := HH(b, c, d, a, x[14], 23, 4259657740);
    HHStep(a, b, c, d, x, 1, 4, 2763975236, 36);
    a := HH(a, b, c, d, x[1], 4, 2763975236);
    HHStep(d, a, b, c, x, 4, 11, 1272893353, 37);
    d := HH(d, a, b, c, x[4], 11, 1272893353);
    HHStep(c, d, a, b, x, 7, 16, 4139469664, 38);
    c := HH(c, d, a, b, x[7], 16, 4139469664);
    HHStep(b, c, d, a, x, 10, 23, 3200236656, 39);
    b := HH(b, c, d, a, x[10], 23, 3200236656);
  }

  method Round3B(a0: Word, b0: Word, c0: Word, d0: Word, x: Block) returns (a: Word, b: Word, c: Word, d: Word)
    ensures Operations(Registers(a0, b0, c0, d0), x, 40, 64) == Operations(Registers(a, b, c, d), x, 48, 64)
  {
    hide Operations, HH;
    a, b, c, d := a0, b0, c0, d0;
    HHStep(a, b, c, d, x, 13, 4, 681279174, 40);
    a := HH(a, b, c, d, x[13], 4, 681279174);
    HHStep(d, a, b, c, x, 0, 11, 3936430074, 41);
    d := HH(d, a, b, c, x[0], 11, 3936430074);
    HHStep(c, d, a, b, x, 3, 16, 3572445317, 42);
    c := HH(c, d, a, b, x[3], 16, 3572445317);
    HHStep(b, c, d, a, x, 6, 23, 76029189, 43);
    b := HH(b, c, d, a, x[6], 23, 76029189);
    HHStep(a, b, c, d, x, 9, 4, 3654602809, 44);
    a := HH(a, b, c, d, x[9], 4, 3654602809);
    HHStep(d, a, b, c, x, 12, 11, 3873151461, 45);
    d := HH(d, a, b, c, x[12], 11, 3873151461);
    HHStep(c, d, a, b, x, 15, 16, 530742520, 46);
    c := HH(c, d, a, b, x[15], 16, 530742520);
    HHStep(b, c, d, a, x, 2, 23, 3299628645, 47);
    b := HH(b, c, d, a, x[2], 23, 3299628645);
  }

  method Round4A(a0: Word, b0: Word, c0: Word, d0: Word, x: Block) returns (a: Word, b: Word, c: Word, d: Word)
    ensures Operations(Registers(a0, b0, c0, d0), x, 48, 64) == Operations(Registers(a, b, c, d), x, 56, 64)
  {
    hide Operations, II;
    a, b, c, d := a0, b0, c0, d0;
    IIStep(a, b, c, d, x, 0, 6, 4096336452, 48);
    a := II(a, b, c, d, x[0], 6, 4096336452);
    IIStep(d, a, b, c, x, 7, 10, 1126891415, 49);
    d := II(d, a, b, c, x[7], 10, 1126891415);
    IIStep(c, d, a, b, x, 14, 15, 2878612391, 50);
    c := II(c, d, a, b, x[14], 15, 2878612391);
    IIStep(b, c, d, a, x, 5, 21, 4237533241, 51);
    b := II(b, c, d, a, x[5], 21, 4237533241);
    IIStep(a, b, c, d, x, 12, 6, 1700485571, 52);
    a := II(a, b, c, d, x[12], 6, 1700485571);
    IIStep(d, a, b, c, x, 3, 10, 2399980690, 53);
    d := II(d, a, b, c, x[3], 10, 2399980690);
    IIStep(c, d, a, b, x, 10, 15, 4293915773, 54);
    c := II(c, d, a, b, x[10], 15, 4293915773);
    IIStep(b, c, d, a, x, 1, 21, 2240044497, 55);
    b := II(b, c, d, a, x[1], 21, 2240044497);
  }

  method Round4B(a0: Word, b0: Word, c0: Word, d0: Word, x: Block) returns (a: Word, b: Word, c: Word, d: Word)
    ensures Operations(Registers(a0, b0, c0, d0), x, 56, 64) == Operations(Registers(a, b, c, d), x, 64, 64)
  {
    hide Operations, II;
    a, b, c, d := a0, b0, c0, d0;
    IIStep(a, b, c, d, x, 8, 6, 1873313359, 56);
    a := II(a, b, c, d, x[8], 6, 1873313359);
    IIStep(d, a, b, c, x, 15, 10, 4264355552, 57);
    d := II(d, a, b, c, x[15], 10, 4264355552);
    IIStep(c, d, a, b, x, 6, 15, 2734768916, 58);
    c := II(c, d, a, b, x[6], 15, 2734768916);
    IIStep(b, c, d, a, x, 13, 21, 1309151649, 59);
    b := II(b, c, d, a, x[13], 21, 1309151649);
    IIStep(a, b, c, d, x, 4, 6, 4149444226, 60);
    a := II(a, b, c, d, x[4], 6, 4149444226);
    IIStep(d, a, b, c, x, 11, 10, 3174756917, 61);
    d := II(d, a, b, c, x[11], 10, 3174756917);
    IIStep(c, d, a, b, x, 2, 15, 718787259, 62);
    c := II(c, d, a, b, x[2], 15, 718787259);
    IIStep(b, c, d, a, x, 9, 21, 3951481745, 63);
    b := II(b, c, d, a, x[9], 21, 3951481745);
  }

  ghost function Regs(buf: array<Word>): Registers
    requires buf.Length == 4
    reads buf
  {
    Registers(buf[0], buf[1], buf[2], buf[3])
  }

  method Transform(buf: array<Word>, x: array<Word>)
    requires buf.Length == 4 && x.Length == 16 && buf != x
    modifies buf
    ensures Regs(buf) == ProcessBlock(old(Regs(buf)), x[..])
  {
    hide Operations, Add;
    var a, b, c, d := buf[0], buf[1], buf[2], buf[3];
    ghost var r0 := Registers(a, b, c, d);
    var w: Block := x[..];
    a, b, c, d := Round1A(a, b, c, d, w);
    a, b, c, d := Round1B(a, b, c, d, w);
    a, b, c, d := Round2A(a, b, c, d, w);
    a, b, c, d := Round2B(a, b, c, d, w);
    a, b, c, d := Round3A(a, b, c, d, w);
    a, b, c, d := Round3B(a, b, c, d, w);
    a, b, c, d := Round4A(a, b, c, d, w);
    a, b, c, d := Round4B(a, b, c, d, w);
    NoOperations(Registers(a, b, c, d), w);
    assert Operations(r0, w, 0, 64) == Registers(a, b, c, d);
    buf[0] := Add(buf[0], a);
    buf[1] := Add(buf[1], b);
    buf[2] := Add(buf[2], c);
    buf[3] := Add(buf[3], d);
  }

  lemma NoOperations(r: Registers, x: Block)
    ensures Operations(r, x, 64, 64) == r
  {
  }
}
