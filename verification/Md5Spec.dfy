/** The MD5 digest of a whole message, as sections 3.1 to 3.5 of RFC 1321 define it. */
module Md5Spec {
  import opened Md5Words

  const TWO32: nat := 0x1_0000_0000

  /** Section 3.1: between 1 and 64 bytes bring the length to 56 modulo 64. */
  function PadLength(n: nat): (k: nat)
    ensures 1 <= k <= 64 && (n + k) % 64 == 56
  {
    if n % 64 < 56 then 56 - n % 64 else 120 - n % 64
  }

  /** A one bit, then zero bits. */
  function Padding(k: nat): (p: seq<Byte>)
    requires 1 <= k
    ensures |p| == k
  {
    [0x80] + seq(k - 1, _ => 0)
  }

  function Padded(message: seq<Byte>): (p: seq<Byte>)
    ensures |p| % 64 == 56
  {
    message + Padding(PadLength(|message|))
  }

  /** Four bytes make a word, low-order byte first. */
  function WordOf(b0: Byte, b1: Byte, b2: Byte, b3: Byte): Word {
    b0 as Word + b1 as Word * 0x100 + b2 as Word * 0x1_0000 + b3 as Word * 0x100_0000
  }

  function Words(bytes: seq<Byte>): (ws: seq<Word>)
    ensures |ws| == |bytes| / 4
  {
    seq(|bytes| / 4, i requires 0 <= i < |bytes| / 4 =>
      WordOf(bytes[4 * i], bytes[4 * i + 1], bytes[4 * i + 2], bytes[4 * i + 3]))
  }

  /** Section 3.2: the low-order 64 bits of the length in bits, low-order word first. */
  function LengthWords(n: nat): (ws: seq<Word>)
    ensures |ws| == 2
  {
    [(8 * n % TWO32) as Word, (8 * n / TWO32 % TWO32) as Word]
  }

  /** Section 3.3 */
  const INITIAL := Registers(0x67452301, 0xefcdab89, 0x98badcfe, 0x10325476)

  /** Section 3.4: block after block of sixteen words. */
  function Fold(r: Registers, ws: seq<Word>): Registers
    requires |ws| % 16 == 0
  {
    if ws == [] then r
    else ProcessBlock(Fold(r, ws[..|ws| - 16]), ws[|ws| - 16..])
  }

  /** Section 3.5: the registers, low-order byte first. */
  function BytesOf(w: Word): seq<Byte> {
    [(w & 0xFF) as Byte, ((w >> 8) & 0xFF) as Byte, ((w >> 16) & 0xFF) as Byte, ((w >> 24) & 0xFF) as Byte]
  }

  function Output(r: Registers): seq<Byte> {
    BytesOf(r.a) + BytesOf(r.b) + BytesOf(r.c) + BytesOf(r.d)
  }

  /** The padded message and its length, as words. */
  function MessageWords(message: seq<Byte>): (ws: seq<Word>)
    ensures |ws| % 16 == 0
  {
    hide *;
    WholeBlocks(|Padded(message)|);
    Words(Padded(message)) + LengthWords(|message|)
  }

  lemma WholeBlocks(n: nat)
    requires n % 64 == 56
    ensures (n / 4 + 2) % 16 == 0
  {
    assert n == 64 * (n / 64) + 56;
    assert n / 4 + 2 == 16 * (n / 64 + 1);
  }

  function Digest(message: seq<Byte>): seq<Byte> {
    hide *;
    Output(Fold(INITIAL, MessageWords(message)))
  }

  // ----- Laws the incremental computation rests on -----

  lemma WordsAppend(a: seq<Byte>, b: seq<Byte>)
    requires |a| % 4 == 0
    ensures Words(a + b) == Words(a) + Words(b)
  {
    var ws := Words(a) + Words(b);
    assert |Words(a + b)| == |ws|;
    forall i | 0 <= i < |ws| ensures Words(a + b)[i] == ws[i] {
      if i >= |a| / 4 {
        var j := i - |a| / 4;
        assert 4 * i == |a| + 4 * j;
        assert (a + b)[4 * i] == b[4 * j] && (a + b)[4 * i + 1] == b[4 * j + 1]
            && (a + b)[4 * i + 2] == b[4 * j + 2] && (a + b)[4 * i + 3] == b[4 * j + 3];
      }
    }
  }

  lemma FoldBlock(r: Registers, ws: seq<Word>, block: Block)
    requires |ws| % 16 == 0
    ensures Fold(r, ws + block) == ProcessBlock(Fold(r, ws), block)
  {
    assert (ws + block)[..|ws + block| - 16] == ws;
    assert (ws + block)[|ws + block| - 16..] == block;
  }
}
