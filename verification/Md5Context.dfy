/** The incremental context: MD5Init, MD5Update, MD5Final, and the chunk loop of MDFile.
    However a message is cut into updates, the digest is that of the whole message. */
module Md5Context {
  import opened Md5Words
  import opened Md5Transform
  import opened Md5Spec

  /** The length of the part of a message that fills whole 64-byte blocks. */
  function Whole(n: nat): nat {
    n - n % 64
  }

  /** What the program writes for the four bytes of a word. */
  function Packed(b0: Byte, b1: Byte, b2: Byte, b3: Byte): Word {
    (((b3 as Word) << 24) | ((b2 as Word) << 16)) | ((b1 as Word) << 8) | (b0 as Word)
  }

  lemma PackedIsWord(b0: Byte, b1: Byte, b2: Byte, b3: Byte)
    ensures Packed(b0, b1, b2, b3) == WordOf(b0, b1, b2, b3)
  {
  }

  class Context {
    var i0: nat   // i[0], i[1]: bits seen so far, 32 bits each
    var i1: nat
    const buf: array<Word>
    const input: array<Byte>
    const digest: array<Byte>
    /** The bytes seen so far. */
    ghost var message: seq<Byte>

    ghost predicate Shape() {
      buf.Length == 4 && input.Length == 64 && digest.Length == 16 && input != digest
    }

    /** The registers have absorbed all whole blocks; the rest is in the input buffer; the
        two-word counter holds eight times the number of bytes, modulo 2^64. */
    ghost predicate Valid()
      reads this, buf, input
    {
      && Shape()
      && Absorbed(Regs(buf), input[..], message)
      && i0 == 8 * |message| % TWO32
      && i1 == 8 * |message| / TWO32 % TWO32
    }

    /** MD5Init */
    constructor ()
      ensures Valid() && message == []
      ensures fresh(buf) && fresh(input) && fresh(digest)
    {
      buf, input, digest := new Word[4], new Byte[64], new Byte[16];
      i0, i1 := 0, 0;
      message := [];
      new;
      buf[0], buf[1], buf[2], buf[3] := 0x67452301, 0xefcdab89, 0x98badcfe, 0x10325476;
    }

    /** Bring n words of the input buffer into x. */
    method Unpack(x: array<Word>, n: nat)
      requires Shape() && x.Length == 16 && n <= 16 && x != buf
      modifies x
      ensures x[..n] == Words(input[..4 * n])
      ensures x[n..] == old(x[n..])
    {
      var i, ii := 0, 0;
      while i < n
        invariant i <= n && ii == 4 * i
        invariant forall j :: 0 <= j < i ==> x[j] == WordOf(input[4 * j], input[4 * j + 1], input[4 * j + 2], input[4 * j + 3])
        invariant forall j :: i <= j < 16 ==> x[j] == old(x[j])
      {
        hide Packed, WordOf;
        PackedIsWord(input[ii], input[ii + 1], input[ii + 2], input[ii + 3]);
        x[i] := Packed(input[ii], input[ii + 1], input[ii + 2], input[ii + 3]);
        i, ii := i + 1, ii + 4;
      }
    }

    /** "update number of bits" */
    method AddBits(inLen: nat, ghost n: nat)
      requires inLen < TWO32 && i0 == 8 * n % TWO32 && i1 == 8 * n / TWO32 % TWO32
      modifies this`i0, this`i1
      ensures i0 == 8 * (n + inLen) % TWO32 && i1 == 8 * (n + inLen) / TWO32 % TWO32
    {
      CountBits(n, inLen);
      var shifted := 8 * inLen % TWO32;
      if (i0 + shifted) % TWO32 < i0 {
        i1 := (i1 + 1) % TWO32;
      }
      i0 := (i0 + shifted) % TWO32;
      i1 := (i1 + inLen / 0x2000_0000) % TWO32;
    }

    /** The loop body of MD5Update: store a byte, "transform if necessary". */
    method AddByte(b: Byte, mdi: nat, x: array<Word>, ghost seen: seq<Byte>) returns (mdi': nat)
      requires Shape() && x.Length == 16 && x != buf && mdi == |seen| % 64
      requires Absorbed(Regs(buf), input[..], seen)
      modifies buf, input, x
      ensures Absorbed(Regs(buf), input[..], seen + [b])
      ensures mdi' == |seen + [b]| % 64
    {
      hide Absorbed, Fold, Words, ProcessBlock;
      ghost var held := input[..];
      AbsorbByte(Regs(buf), held, seen, b);
      input[mdi] := b;
      assert input[..] == held[mdi := b];
      mdi' := mdi + 1;
      if mdi' == 64 {
        Unpack(x, 16);
        assert x[..16] == x[..] && input[..64] == input[..];
        Transform(buf, x);
        mdi' := 0;
      }
    }

    /** MD5Update */
    method Update(inBuf: seq<Byte>)
      requires Valid() && |inBuf| < TWO32
      modifies this, buf, input
      ensures Valid() && message == old(message) + inBuf
    {
      hide Absorbed;
      var x := new Word[16];
      var mdi := i0 / 8 % 64;
      BufferPosition(|message|);
      AddBits(|inBuf|, |message|);
      var k := 0;
      assert inBuf[..0] == [] && message + [] == message;
      while k < |inBuf|
        invariant k <= |inBuf| && mdi == |message + inBuf[..k]| % 64
        invariant Absorbed(Regs(buf), input[..], message + inBuf[..k])
        invariant message == old(message)
        invariant i0 == 8 * (|message| + |inBuf|) % TWO32 && i1 == 8 * (|message| + |inBuf|) / TWO32 % TWO32
      {
        assert message + inBuf[..k + 1] == (message + inBuf[..k]) + [inBuf[k]];
        mdi := AddByte(inBuf[k], mdi, x, message + inBuf[..k]);
        k := k + 1;
      }
      assert inBuf[..k] == inBuf;
      message := message + inBuf;
    }

    /** "pad out to 56 mod 64" */
    method PadOut()
      requires Valid()
      modifies this, buf, input
      ensures Valid() && message == Padded(old(message))
    {
      hide Absorbed, Padding;
      var mdi := i0 / 8 % 64;
      BufferPosition(|message|);
      var padLen := if mdi < 56 then 56 - mdi else 120 - mdi;
      PaddingPrefix(padLen);
      Update(PADDING[..padLen]);
    }

    /** "append length in bits and transform" */
    method AppendLength(x: array<Word>, ghost whole: seq<Byte>)
      requires Valid() && x.Length == 16 && x != buf
      requires message == Padded(whole) && x[14..] == LengthWords(|whole|)
      modifies x, buf
      ensures Output(Regs(buf)) == Digest(whole)
    {
      hide Fold, Words, ProcessBlock, Digest, Output, Padded, LengthWords;
      Unpack(x, 14);
      assert x[..] == x[..14] + x[14..];
      assert input[..4 * 14] == input[..][..56];
      LastBlock(Regs(buf), input[..], whole, x[..]);
      Transform(buf, x);
    }

    /** "store buffer in digest" */
    method StoreDigest()
      requires Shape()
      modifies digest
      ensures digest[..] == Output(Regs(buf))
    {
      hide BytesOf;
      assert digest[..0] == [];
      Write(0, buf[0]);
      Write(1, buf[1]);
      Write(2, buf[2]);
      Write(3, buf[3]);
      assert digest[..16] == digest[..];
    }

    /** MD5Final */
    method Final()
      requires Valid()
      modifies this, buf, input, digest
      ensures digest[..] == Digest(old(message))
    {
      hide Absorbed, Digest, Output, Padded;
      ghost var whole := message;
      var x := new Word[16];
      x[14], x[15] := i0 as Word, i1 as Word;
      assert x[14..] == LengthWords(|whole|);
      PadOut();
      AppendLength(x, whole);
      StoreDigest();
    }

    /** "store buffer in digest", one word */
    method Write(i: nat, w: Word)
      requires Shape() && i < 4
      modifies digest
      ensures digest[..4 * i + 4] == old(digest[..4 * i]) + BytesOf(w)
    {
      var ii := 4 * i;
      digest[ii] := (w & 0xFF) as Byte;
      digest[ii + 1] := ((w >> 8) & 0xFF) as Byte;
      digest[ii + 2] := ((w >> 16) & 0xFF) as Byte;
      digest[ii + 3] := ((w >> 24) & 0xFF) as Byte;
      assert digest[..ii] == old(digest[..ii]);
      assert digest[ii..ii + 4] == BytesOf(w);
    }
  }

  const PADDING: seq<Byte> := [0x80] + seq(63, _ => 0)

  lemma PaddingPrefix(k: nat)
    requires 1 <= k <= 64
    ensures |PADDING| == 64 && PADDING[..k] == Padding(k)
  {
  }

  /** The counter tells how full the input buffer is. */
  lemma BufferPosition(n: nat)
    ensures 8 * n % TWO32 / 8 % 64 == n % 64
  {
    var q := 8 * n / TWO32;
    assert 8 * n == TWO32 * q + 8 * n % TWO32;
    assert 8 * n % TWO32 / 8 == n - q * 0x2000_0000;
    assert (n - q * 0x2000_0000) % 64 == n % 64 by {
      assert n == 64 * (n / 64) + n % 64;
      assert n - q * 0x2000_0000 == 64 * (n / 64 - q * 0x80_0000) + n % 64;
    }
  }

  /** The carry logic adds 8 * more to the 64-bit counter. */
  lemma CountBits(n: nat, more: nat)
    requires more < TWO32
    ensures
      var i0, i1, shifted := 8 * n % TWO32, 8 * n / TWO32 % TWO32, 8 * more % TWO32;
      var carried := if (i0 + shifted) % TWO32 < i0 then (i1 + 1) % TWO32 else i1;
      && (i0 + shifted) % TWO32 == 8 * (n + more) % TWO32
      && (carried + more / 0x2000_0000) % TWO32 == 8 * (n + more) / TWO32 % TWO32
  {
    var hi, lo := 8 * n / TWO32, 8 * n % TWO32;
    var mhi, mlo := 8 * more / TWO32, 8 * more % TWO32;
    Divided(8 * (n + more), hi + mhi + (if lo + mlo < TWO32 then 0 else 1),
            if lo + mlo < TWO32 then lo + mlo else lo + mlo - TWO32);
    assert mhi == more / 0x2000_0000;
    if lo + mlo >= TWO32 {
      ModAdd(hi, 1);
      ModAdd(hi % TWO32 + 1, mhi);
      ModAdd(hi, 1 + mhi);
    } else {
      ModAdd(hi, mhi);
    }
  }

  lemma Divided(v: nat, q: nat, r: nat)
    requires r < TWO32 && v == TWO32 * q + r
    ensures v / TWO32 == q && v % TWO32 == r
  {
  }

  lemma ModAdd(a: nat, b: nat)
    ensures (a % TWO32 + b) % TWO32 == (a + b) % TWO32
  {
  }

  /** One more byte: it goes behind the partial block, and if that is full now, the block
      joins the registers. */
  lemma AbsorbByte(regs: Registers, input: seq<Byte>, message: seq<Byte>, b: Byte)
    requires |input| == 64 && Absorbed(regs, input, message)
    ensures
      var p := |message| % 64;
      var regs' := if p == 63 then ProcessBlock(regs, Words(input[p := b])) else regs;
      Absorbed(regs', input[p := b], message + [b])
  {
    hide ProcessBlock, Words, Fold, Whole, WholeWords;
    var p, w := |message| % 64, Whole(|message|);
    var longer, held := message + [b], input[p := b];
    WholeStep(|message|);
    assert longer[..w] == message[..w];
    assert held[..p + 1] == input[..p] + [b] == longer[w..];
    if p == 63 {
      assert held[..64] == held;
      assert longer == message[..w] + held;
      WordsAppend(message[..w], held);
      assert WholeWords(message);
      FoldBlock(INITIAL, Words(message[..w]), Words(held));
      assert longer[..|longer|] == longer;
    }
    assert WholeWords(longer);
  }

  lemma WholeStep(n: nat)
    ensures Whole(n) <= n && n - Whole(n) == n % 64 && Whole(n) % 4 == 0
    ensures n % 64 < 63 ==> Whole(n + 1) == Whole(n) && (n + 1) % 64 == n % 64 + 1
    ensures n % 64 == 63 ==> Whole(n + 1) == n + 1
  {
    var q, r := n / 64, n % 64;
    Rest64(n, q, r);
    if r < 63 {
      Rest64(n + 1, q, r + 1);
    } else {
      Rest64(n + 1, q + 1, 0);
    }
    assert Whole(n) == 4 * (16 * q);
  }

  lemma Rest64(n: nat, q: nat, r: nat)
    requires r < 64 && n == 64 * q + r
    ensures n % 64 == r
  {
  }

  /** The last block: the padded rest and the length. */
  lemma LastBlock(regs: Registers, input: seq<Byte>, message: seq<Byte>, x: seq<Word>)
    requires |input| == 64 && Absorbed(regs, input, Padded(message))
    requires |x| == 16 && x == Words(input[..56]) + LengthWords(|message|)
    ensures Output(ProcessBlock(regs, x)) == Digest(message)
  {
    hide ProcessBlock, Words, LengthWords, Output;
    var padded := Padded(message);
    var w := Whole(|padded|);
    assert padded == padded[..w] + input[..56];
    WordsAppend(padded[..w], input[..56]);
    assert MessageWords(message) == Words(padded[..w]) + x;
    FoldBlock(INITIAL, Words(padded[..w]), x);
  }

  /** `regs` and `input` together hold `message`. */
  ghost predicate Absorbed(regs: Registers, input: seq<Byte>, message: seq<Byte>)
    requires |input| == 64
  {
    var w := Whole(|message|);
    && WholeWords(message)
    && regs == Fold(INITIAL, Words(message[..w]))
    && input[..|message| - w] == message[w..]
  }

  ghost predicate WholeWords(message: seq<Byte>)
    ensures WholeWords(message)
    ensures |Words(message[..Whole(|message|)])| % 16 == 0
  {
    var w := Whole(|message|);
    assert w == 64 * (|message| / 64) && w / 4 == 16 * (|message| / 64);
    true
  }

  // ----- Chunks -----

  function Concat(chunks: seq<seq<Byte>>): seq<Byte> {
    if chunks == [] then [] else Concat(chunks[..|chunks| - 1]) + chunks[|chunks| - 1]
  }

  /** MDFile and MDString: a fresh context, one update per chunk read, and the digest.
      `chunks` is whatever the reads returned. */
  method DigestChunks(chunks: seq<seq<Byte>>) returns (digest: seq<Byte>)
    requires forall i :: 0 <= i < |chunks| ==> |chunks[i]| < TWO32
    ensures digest == Digest(Concat(chunks))
  {
    var ctx := new Context();
    var i := 0;
    while i < |chunks|
      invariant i <= |chunks|
      invariant ctx.Valid() && ctx.message == Concat(chunks[..i])
      invariant fresh(ctx) && fresh(ctx.buf) && fresh(ctx.input) && fresh(ctx.digest)
    {
      hide *;
      ctx.Update(chunks[i]);
      ConcatStep(chunks, i);
      i := i + 1;
    }
    assert chunks[..i] == chunks;
    ctx.Final();
    digest := ctx.digest[..];
  }

  lemma ConcatStep(chunks: seq<seq<Byte>>, i: nat)
    requires i < |chunks|
    ensures Concat(chunks[..i + 1]) == Concat(chunks[..i]) + chunks[i]
  {
    assert chunks[..i + 1][..i] == chunks[..i];
  }
}
