/** 32-bit words of MD5: the auxiliary functions, the macros that apply them, and the
    operation table of section 3.4 of RFC 1321. */
module Md5Words {
  type Word = bv32
  type Byte = bv8

  // F, G, H and I, written as the macros are
  function F(x: Word, y: Word, z: Word): Word { (x & y) | (!x & z) }
  function G(x: Word, y: Word, z: Word): Word { (x & z) | (y & !z) }
  function H(x: Word, y: Word, z: Word): Word { x ^ y ^ z }
  function I(x: Word, y: Word, z: Word): Word { y ^ (x | !z) }

  /** Left shifts by which words are rotated. */
  type Shift = n: Word | 0 < n < 32 witness 1

  function RotateLeft(x: Word, n: Shift): Word {
    (x << n) | (x >> (32 - n))
  }

  // Bit by bit: F selects y or z by x, G selects x or y by z, H is the parity, and I is
  // x ^ y where z is set and the complement of y elsewhere.

  lemma FSelects(x: Word, y: Word, z: Word)
    ensures F(x, y, z) & x == y & x
    ensures F(x, y, z) & !x == z & !x
  {
  }

  lemma GSelects(x: Word, y: Word, z: Word)
    ensures G(x, y, z) & z == x & z
    ensures G(x, y, z) & !z == y & !z
  {
  }

  lemma HIsParity(x: Word, y: Word, z: Word)
    ensures H(x, y, z) ^ x == y ^ z
  {
  }

  lemma ISelects(x: Word, y: Word, z: Word)
    ensures I(x, y, z) & z == (x ^ y) & z
    ensures I(x, y, z) & !z == !y & !z
  {
  }

  /** Rotating by one doubles, and the carry comes in again at the low end; */
  lemma RotatedOnce(x: Word)
    ensures RotateLeft(x, 1) == x + x + (x >> 31)
  {
  }

  /** and any rotation is that, repeated. */
  lemma RotatedAgain(x: Word, n: Word)
    ensures 0 < n < 31 ==> RotateLeft(x, n + 1) == RotateLeft(RotateLeft(x, n), 1)
  {
  }

  /** Addition of words, modulo 2^32. */
  function Add(x: Word, y: Word): Word { x + y }

  /** The four-operand sum of section 3.4, added from the left. */
  function Sum(a: Word, f: Word, x: Word, t: Word): Word { a + f + x + t }

  /** The same sum as the macros form it. */
  function MacroSum(a: Word, f: Word, x: Word, ac: Word): Word { a + (f + x + ac) }

  // The macros: add to a, rotate, add b
  function FF(a: Word, b: Word, c: Word, d: Word, x: Word, s: Shift, ac: Word): Word {
    Add(RotateLeft(MacroSum(a, F(b, c, d), x, ac), s), b)
  }
  function GG(a: Word, b: Word, c: Word, d: Word, x: Word, s: Shift, ac: Word): Word {
    Add(RotateLeft(MacroSum(a, G(b, c, d), x, ac), s), b)
  }
  function HH(a: Word, b: Word, c: Word, d: Word, x: Word, s: Shift, ac: Word): Word {
    Add(RotateLeft(MacroSum(a, H(b, c, d), x, ac), s), b)
  }
  function II(a: Word, b: Word, c: Word, d: Word, x: Word, s: Shift, ac: Word): Word {
    Add(RotateLeft(MacroSum(a, I(b, c, d), x, ac), s), b)
  }

  // ----- Section 3.4 of RFC 1321 -----

  /** Registers A, B, C, D. */
  datatype Registers = Registers(a: Word, b: Word, c: Word, d: Word)

  /** A block of sixteen words. */
  type Block = s: seq<Word> | |s| == 16 witness [0, 0, 0, 0, 0, 0, 0, 0, 0, 0, 0, 0, 0, 0, 0, 0]

  // T(i), i = 1 to 64, is the integer part of 4294967296 times abs(sin(i)); one table per round.
  function T0(j: nat): Word {
    match j
    case 0 => 0xd76aa478
    case 1 => 0xe8c7b756
    case 2 => 0x242070db
    case 3 => 0xc1bdceee
    case 4 => 0xf57c0faf
    case 5 => 0x4787c62a
    case 6 => 0xa8304613
    case 7 => 0xfd469501
    case 8 => 0x698098d8
    case 9 => 0x8b44f7af
    case 10 => 0xffff5bb1
    case 11 => 0x895cd7be
    case 12 => 0x6b901122
    case 13 => 0xfd987193
    case 14 => 0xa679438e
    case _ => 0x49b40821
  }

  function T1(j: nat): Word {
    match j
    case 0 => 0xf61e2562
    case 1 => 0xc040b340
    case 2 => 0x265e5a51
    case 3 => 0xe9b6c7aa
    case 4 => 0xd62f105d
    case 5 => 0x02441453
    case 6 => 0xd8a1e681
    case 7 => 0xe7d3fbc8
    case 8 => 0x21e1cde6
    case 9 => 0xc33707d6
    case 10 => 0xf4d50d87
    case 11 => 0x455a14ed
    case 12 => 0xa9e3e905
    case 13 => 0xfcefa3f8
    case 14 => 0x676f02d9
    case _ => 0x8d2a4c8a
  }

  function T2(j: nat): Word {
    match j
    case 0 => 0xfffa3942
    case 1 => 0x8771f681
    case 2 => 0x6d9d6122
    case 3 => 0xfde5380c
    case 4 => 0xa4beea44
    case 5 => 0x4bdecfa9
    case 6 => 0xf6bb4b60
    case 7 => 0xbebfbc70
    case 8 => 0x289b7ec6
    case 9 => 0xeaa127fa
    case 10 => 0xd4ef3085
    case 11 => 0x04881d05
    case 12 => 0xd9d4d039
    case 13 => 0xe6db99e5
    case 14 => 0x1fa27cf8
    case _ => 0xc4ac5665
  }

  function T3(j: nat): Word {
    match j
    case 0 => 0xf4292244
    case 1 => 0x432aff97
    case 2 => 0xab9423a7
    case 3 => 0xfc93a039
    case 4 => 0x655b59c3
    case 5 => 0x8f0ccc92
    case 6 => 0xffeff47d
    case 7 => 0x85845dd1
    case 8 => 0x6fa87e4f
    case 9 => 0xfe2ce6e0
    case 10 => 0xa3014314
    case 11 => 0x4e0811a1
    case 12 => 0xf7537e82
    case 13 => 0xbd3af235
    case 14 => 0x2ad7d2bb
    case _ => 0xeb86d391
  }

  /** The constant of operation i. */
  function T(i: nat): Word {
    if i < 16 then T0(i) else if i < 32 then T1(i - 16) else if i < 48 then T2(i - 32) else T3(i - 48)
  }

  /** How far operation i rotates: four amounts per round, used in turn. */
  function Rotation(round: nat, i: nat): Shift {
    match round
    case 0 => if i % 4 == 0 then 7 else if i % 4 == 1 then 12 else if i % 4 == 2 then 17 else 22
    case 1 => if i % 4 == 0 then 5 else if i % 4 == 1 then 9 else if i % 4 == 2 then 14 else 20
    case 2 => if i % 4 == 0 then 4 else if i % 4 == 1 then 11 else if i % 4 == 2 then 16 else 23
    case _ => if i % 4 == 0 then 6 else if i % 4 == 1 then 10 else if i % 4 == 2 then 15 else 21
  }

  /** Round r uses word k = (offset + stride * j) mod 16 in its j-th operation. */
  function WordIndex(round: nat, j: nat): (k: nat)
    ensures k < 16
  {
    match round
    case 0 => j % 16
    case 1 => (1 + 5 * j) % 16
    case 2 => (5 + 3 * j) % 16
    case _ => 7 * j % 16
  }

  function Auxiliary(round: nat, x: Word, y: Word, z: Word): Word {
    match round
    case 0 => F(x, y, z)
    case 1 => G(x, y, z)
    case 2 => H(x, y, z)
    case _ => I(x, y, z)
  }

  /** Operation i of 64: a = b + ((a + f(b,c,d) + X[k] + T[i]) <<< s), after which the
      registers change roles. */
  function Operation(r: Registers, x: Block, i: nat): Registers
    requires i < 64
  {
    var round := i / 16;
    var sum := Sum(r.a, Auxiliary(round, r.b, r.c, r.d), x[WordIndex(round, i % 16)], T(i));
    Registers(r.d, Add(r.b, RotateLeft(sum, Rotation(round, i))), r.b, r.c)
  }

  function Operations(r: Registers, x: Block, i: nat, n: nat): Registers
    requires i <= n <= 64
    decreases n - i
  {
    if i == n then r else Operations(Operation(r, x, i), x, i + 1, n)
  }

  /** All four rounds, then the old registers are added. */
  function ProcessBlock(r: Registers, x: Block): Registers {
    var s := Operations(r, x, 0, 64);
    Registers(Add(r.a, s.a), Add(r.b, s.b), Add(r.c, s.c), Add(r.d, s.d))
  }
}
