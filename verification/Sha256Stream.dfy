/** Hashing a message piece by piece (openwrt/scripts/mkhash.c:91-109, 557-667) against padding the whole message
    (section 5.1.1 of FIPS 180-4). */
module Sha256Stream {
  import opened Bytes
  import opened Sha256

  // ----------------------------------------------------------- the standard

  const INITIAL: Eight := Eight(0x6A09E667, 0xBB67AE85, 0x3C6EF372, 0xA54FF53A,
                                0x510E527F, 0x9B05688C, 0x1F83D9AB, 0x5BE0CD19)

  /** A 64-bit number, most significant byte first. */
  function Be64(n: nat): (b: seq<Byte>)
    requires n < WIDTH
    ensures |b| == 8
  {
    [n / 0x100_0000_0000_0000, n / 0x1_0000_0000_0000 % 256, n / 0x100_0000_0000 % 256, n / 0x1_0000_0000 % 256,
     n / 0x100_0000 % 256, n / 0x1_0000 % 256, n / 0x100 % 256, n % 256]
  }

  /** What is appended to a message of n bytes: a one bit, zero bits, the length in bits. */
  function Padding(n: nat): seq<Byte> { [0x80] + Zeros((119 - n % 64) % 64) + Be64(8 * n % WIDTH) }

  /** The hash value after a block. */
  function HashBlock(s: Eight, block: seq<Byte>): Eight { if |block| == 64 then Compress(s, block) else s }

  lemma PaddingSize(n: nat)
    ensures |Padding(n)| == if n % 64 < 56 then 64 - n % 64 else 128 - n % 64
  {
  }

  lemma PaddingFillsBlocks(n: nat)
    ensures (n + |Padding(n)|) % 64 == 0
  {
    PaddingSize(n);
    WholeBlocks(n, n % 64);
  }

  /** No fewer zero bytes would do. */
  lemma PaddingIsShortest(n: nat, zeros: nat)
    requires (n + 1 + zeros + 8) % 64 == 0
    ensures |Padding(n)| <= 1 + zeros + 8
  {
    PaddingSize(n);
    assert n == 64 * (n / 64) + n % 64;
  }

  function HashOf(m: seq<Byte>): Eight {
    PaddingFillsBlocks(|m|);
    Fold(HashBlock, INITIAL, m + Padding(|m|))
  }

  function FromBe(b: seq<Byte>): int {
    if b == [] then 0 else FromBe(b[..|b| - 1]) * 256 + (b[|b| - 1] as int)
  }

  lemma FromBeSnoc(b: seq<Byte>, x: Byte)
    ensures FromBe(b + [x]) == FromBe(b) * 256 + (x as int)
  {
    assert (b + [x])[..|b|] == b;
  }

  /** The length written into the padding can be read back. */
  lemma Be64Decodes(n: nat)
    requires n < WIDTH
    ensures FromBe(Be64(n)) == n
  {
    var b := Be64(n);
    assert b[..0] == [] && b[..8] == b;
    assert FromBe(b[..0]) == 0 == n / 0x100_0000_0000_0000 / 256;
    DivTwice(n);
    hide FromBe;
    Shifted(n, 0x100_0000_0000_0000, b, 0);
    Shifted(n, 0x1_0000_0000_0000, b, 1);
    Shifted(n, 0x100_0000_0000, b, 2);
    Shifted(n, 0x1_0000_0000, b, 3);
    Shifted(n, 0x100_0000, b, 4);
    Shifted(n, 0x1_0000, b, 5);
    Shifted(n, 0x100, b, 6);
    Shifted(n, 1, b, 7);
  }

  lemma Shifted(n: nat, d: nat, b: seq<Byte>, i: nat)
    requires d > 0 && i < |b| && b[i] == n / d % 256 && FromBe(b[..i]) == n / d / 256
    ensures FromBe(b[..i + 1]) == n / d
  {
    assert b[..i + 1] == b[..i] + [b[i]];
    FromBeSnoc(b[..i], b[i]);
  }

  /** Byte for byte: a one bit, zero bits, and the length in bits, most significant byte
      first. */
  lemma PaddingBytes(n: nat)
    ensures var p := Padding(n);
            && |p| >= 9 && p[0] == 0x80 && (forall i :: 1 <= i < |p| - 8 ==> p[i] == 0)
            && FromBe(p[|p| - 8..]) == 8 * n % WIDTH
  {
    var zeros := Zeros((119 - n % 64) % 64);
    Be64Decodes(8 * n % WIDTH);
    hide Be64, FromBe;
    var p, k := Padding(n), |zeros|;
    assert p[k + 1..] == Be64(8 * n % WIDTH);
    assert forall i :: 0 <= i < k ==> zeros[i] == 0 && p[i + 1] == zeros[i];
  }

  // ------------------------------------------------------------ the context

  /** SHA256_CTX: `count` is the number of bits, modulo 2^64. */
  class Context {
    const state: array<Word>
    var count: nat
    const buf: array<Byte>

    constructor ()
      ensures Holds([]) && fresh(state) && fresh(buf)
    {
      state := new Word[8][0x6A09E667, 0xBB67AE85, 0x3C6EF372, 0xA54FF53A,
                           0x510E527F, 0x9B05688C, 0x1F83D9AB, 0x5BE0CD19];
      count := 0;
      buf := new Byte[64](i => 0);
    }

    ghost predicate Shape() { state.Length == 8 && buf.Length == 64 }

    /** The context after the bytes of `m`: whole blocks are in the state, the rest is in the
        buffer. */
    ghost predicate Holds(m: seq<Byte>)
      reads this, state, buf
    {
      && Shape() && count == 8 * |m| % WIDTH
      && View(state[..], 0) == Fold(HashBlock, INITIAL, m[..Whole(|m|)])
      && buf[..|m| % 64] == m[Whole(|m|)..]
    }

    /** SHA256_Update: the context after `m` becomes the context after `m + src`, however
        much of a block was buffered. */
    method Update(src: seq<Byte>, ghost m: seq<Byte>)
      requires Holds(m) && |src| < WIDTH
      modifies this, state, buf
      ensures Holds(m + src)
    {
      hide Fold, View;
      var r := count / 8 % 64;
      Buffered(|m|);
      FirstBlock(m, src);
      var bitlen := |src| * 8 % WIDTH;
      count := (count + bitlen) % WIDTH;
      CountAdds(|m|, |src|);
      if |src| < 64 - r {
        AppendTail(src, r, m);
      } else {
        FillBlock(src, r, m);
        UpdateBlocks(src, 64 - r, m);
      }
    }

    /** The new bytes do not complete a block: they are only kept. */
    method AppendTail(src: seq<Byte>, r: nat, ghost m: seq<Byte>)
      requires Shape() && r == |m| % 64 && |src| < 64 - r && count == 8 * |m + src| % WIDTH
      requires View(state[..], 0) == Fold(HashBlock, INITIAL, m[..|m| - r]) && buf[..r] == m[|m| - r..]
      modifies buf
      ensures Holds(m + src)
    {
      hide View, Fold;
      CopyInto(buf, r, src);
      TailGrows(m, src);
      assert buf[..r + |src|] == m[|m| - r..] + src;
    }

    /** The first of the new bytes complete the block that was begun. */
    method FillBlock(src: seq<Byte>, r: nat, ghost m: seq<Byte>)
      requires Shape() && r == |m| % 64 && 64 - r <= |src| && (|m| - r) % 64 == (|m| + 64 - r) % 64 == 0
      requires View(state[..], 0) == Fold(HashBlock, INITIAL, m[..|m| - r]) && buf[..r] == m[|m| - r..]
      modifies state, buf
      ensures View(state[..], 0) == Fold(HashBlock, INITIAL, (m + src)[..|m| + 64 - r])
    {
      hide Compress, View, Fold;
      CopyInto(buf, r, src[..64 - r]);
      FirstBlock(m, src);
      assert buf[..] == m[|m| - r..] + src[..64 - r];
      OneBlock(buf[..], m[..|m| - r]);
    }

    /** Whole blocks are mixed in from the input itself, and what is left over is kept. */
    method UpdateBlocks(src: seq<Byte>, start: nat, ghost m: seq<Byte>)
      requires Shape() && start <= |src| && (|m| + start) % 64 == 0 && count == 8 * |m + src| % WIDTH
      requires View(state[..], 0) == Fold(HashBlock, INITIAL, (m + src)[..|m| + start])
      modifies state, buf
      ensures Holds(m + src)
    {
      hide Compress, View, Fold;
      var pos := start;
      while |src| - pos >= 64
        invariant pos <= |src| && (|m| + pos) % 64 == 0
        invariant View(state[..], 0) == Fold(HashBlock, INITIAL, (m + src)[..|m| + pos])
      {
        OneBlock(src[pos..pos + 64], (m + src)[..|m| + pos]);
        NextBlock(m, src, pos);
        pos := pos + 64;
      }
      CopyInto(buf, 0, src[pos..]);
      LastPart(m, src, pos);
    }

    /** Transform of one more block */
    method OneBlock(block: seq<Byte>, ghost front: seq<Byte>)
      requires state.Length == 8 && |block| == 64 && |front| % 64 == 0
      requires View(state[..], 0) == Fold(HashBlock, INITIAL, front)
      modifies state
      ensures (|front| + 64) % 64 == 0 && View(state[..], 0) == Fold(HashBlock, INITIAL, front + block)
    {
      hide Compress, View, Fold;
      FoldBlock(HashBlock, INITIAL, front, block);
      Transform(state, block);
    }

    /** be64enc into the last eight bytes, then the last block */
    method FinishBlock(ghost front: seq<Byte>, ghost m: seq<Byte>)
      requires Shape() && count < WIDTH && |front| % 64 == 0 == (|front| + 64) % 64
      requires View(state[..], 0) == Fold(HashBlock, INITIAL, front)
      modifies state, buf
      ensures View(state[..], 0) == Fold(HashBlock, INITIAL, front + (old(buf[..56]) + Be64(count)))
    {
      hide Compress, View, Fold;
      CopyInto(buf, 56, Be64(count));
      assert buf[..] == old(buf[..56]) + Be64(count);
      OneBlock(buf[..], front);
    }

    /** Padding when the length still fits into the last block. */
    method PadShort(r: nat, ghost m: seq<Byte>)
      requires Holds(m) && r == |m| % 64 < 56
      modifies state, buf
      ensures View(state[..], 0) == HashOf(m)
    {
      hide Compress, View, Fold, Be64, Zeros, Padding;
      ghost var front, tail := m[..|m| - r], m[|m| - r..];
      PaddingFillsBlocks(|m|);
      ShortPadding(m);
      ghost var pad := [0x80] + Zeros(55 - r);
      CopyInto(buf, r, [0x80] + Zeros(55 - r));
      FrontOf(buf[..], tail, pad, buf[56..]);
      FinishBlock(front, m);
    }

    /** Padding that takes a block of its own for the length. */
    method PadLong(r: nat, ghost m: seq<Byte>)
      requires Holds(m) && r == |m| % 64 >= 56
      modifies state, buf
      ensures View(state[..], 0) == HashOf(m)
    {
      hide Compress, View, Fold, Be64, Zeros, Padding;
      ghost var front, tail := m[..|m| - r], m[|m| - r..];
      PaddingFillsBlocks(|m|);
      LongPadding(m);
      CopyInto(buf, r, [0x80] + Zeros(63 - r));
      ghost var block := tail + ([0x80] + Zeros(63 - r));
      assert buf[..] == block;
      OneBlock(buf[..], front);
      CopyInto(buf, 0, Zeros(56));
      assert buf[..56] == Zeros(56);
      FinishBlock(front + block, m);
    }

    /** SHA256_Pad: the state is the hash of the whole message, padded at once. */
    method Pad(ghost m: seq<Byte>)
      requires Holds(m)
      modifies state, buf
      ensures View(state[..], 0) == HashOf(m)
    {
      hide HashOf, View, Fold;
      var r := count / 8 % 64;
      Buffered(|m|);
      if r < 56 { PadShort(r, m); } else { PadLong(r, m); }
    }

    /** memset of the context */
    method Clear()
      requires Shape()
      modifies this, state, buf
      ensures count == 0 && (forall i :: 0 <= i < 8 ==> state[i] == 0) && forall i :: 0 <= i < 64 ==> buf[i] == 0
    {
      for i := 0 to 8
        invariant forall k :: 0 <= k < i ==> state[k] == 0
      {
        state[i] := 0;
      }
      count := 0;
      for i := 0 to 64
        invariant count == 0 && forall k :: 0 <= k < i ==> buf[k] == 0
        invariant forall k :: 0 <= k < 8 ==> state[k] == 0
      {
        buf[i] := 0;
      }
    }

    /** SHA256_Final: the digest, and a cleared context */
    method Final(ghost m: seq<Byte>) returns (digest: seq<Byte>)
      requires Holds(m)
      modifies this, state, buf
      ensures digest == Encode(HashOf(m))
      ensures count == 0 && (forall i :: 0 <= i < 8 ==> state[i] == 0) && forall i :: 0 <= i < 64 ==> buf[i] == 0
    {
      hide HashOf, Be32Enc, Fold, View, Encode;
      Pad(m);
      digest := [];
      for i := 0 to 8
        invariant digest == EncodeWords(state[..i])
      {
        digest := digest + Be32Enc(state[i]);
        assert state[..i + 1][..i] == state[..i];
      }
      EncodedView(state[..]);
      assert state[..8] == state[..];
      Clear();
    }
  }

  /** be32enc */
  function Be32Enc(w: Word): (b: seq<Byte>)
    ensures |b| == 4
  {
    [((w >> 24) & 0xff) as int, ((w >> 16) & 0xff) as int, ((w >> 8) & 0xff) as int, (w & 0xff) as int]
  }

  /** Decoding an encoded word gives it back. */
  lemma Be32Decodes(w: Word)
    ensures Be32Dec(Be32Enc(w)) == w
  {
    ByteAndBack((w >> 24) & 0xff);
    ByteAndBack((w >> 16) & 0xff);
    ByteAndBack((w >> 8) & 0xff);
    ByteAndBack(w & 0xff);
    FourBytes(w);
  }

  lemma ByteAndBack(w: Word)
    ensures (w as int) as Word == w
  {
  }

  lemma FourBytes(w: Word)
    ensures (((((w >> 24) & 0xff) << 8) | ((w >> 16) & 0xff)) << 16) | ((((w >> 8) & 0xff) << 8) | (w & 0xff)) == w
  {
  }

  function EncodeWords(ws: seq<Word>): seq<Byte> {
    if ws == [] then [] else EncodeWords(ws[..|ws| - 1]) + Be32Enc(ws[|ws| - 1])
  }

  function Encode(s: Eight): seq<Byte> { EncodeWords([s.a, s.b, s.c, s.d, s.e, s.f, s.g, s.h]) }

  lemma EncodedView(v: seq<Word>)
    requires |v| == 8
    ensures Encode(View(v, 0)) == EncodeWords(v)
  {
    hide EncodeWords;
    var s := View(v, 0);
    assert v == [s.a, s.b, s.c, s.d, s.e, s.f, s.g, s.h];
  }

  lemma ShortPadding(m: seq<Byte>)
    requires |m| % 64 < 56
    ensures var r := |m| % 64;
            m + Padding(|m|)
            == m[..|m| - r] + ((m[|m| - r..] + ([0x80] + Zeros(55 - r))) + Be64(8 * |m| % WIDTH))
  {
    var r, one, last := |m| % 64, [0x80] + Zeros(55 - |m| % 64), Be64(8 * |m| % WIDTH);
    ZerosNeeded(|m|);
    assert Padding(|m|) == one + last;
    hide Be64, Padding;
    Associate(m[..|m| - r], m[|m| - r..], one, last);
    assert m[..|m| - r] + m[|m| - r..] == m;
  }

  lemma LongPadding(m: seq<Byte>)
    requires |m| % 64 >= 56
    ensures var r := |m| % 64;
            m + Padding(|m|)
            == (m[..|m| - r] + (m[|m| - r..] + ([0x80] + Zeros(63 - r)))) + (Zeros(56) + Be64(8 * |m| % WIDTH))
  {
    var r := |m| % 64;
    ZerosNeeded(|m|);
    assert ([0x80] + Zeros(63 - r)) + Zeros(56) == [0x80] + Zeros(119 - r);
    var one, rest := [0x80] + Zeros(63 - r), Zeros(56) + Be64(8 * |m| % WIDTH);
    assert one + rest == Padding(|m|);
    Associate(m[..|m| - r], m[|m| - r..], one, rest);
    assert m[..|m| - r] + m[|m| - r..] == m;
  }

  /** The number of buffered bytes can be read off the count of bits. */
  lemma Buffered(n: nat)
    ensures 8 * n % WIDTH / 8 % 64 == n % 64
  {
    var q := 8 * n / WIDTH;
    var c := 8 * n % WIDTH;
    assert c == 8 * (n - 0x2000_0000_0000_0000 * q);
    assert c / 8 == n - 0x2000_0000_0000_0000 * q;
    Mod64(n, 0x80_0000_0000_0000 * q);
  }

  lemma CountAdds(m: nat, n: nat)
    ensures (8 * m % WIDTH + n * 8 % WIDTH) % WIDTH == 8 * (m + n) % WIDTH
  {
    var a, b := 8 * m, 8 * n;
    var k := (a + b) / WIDTH - a / WIDTH - b / WIDTH;
    ModIs(a % WIDTH + b % WIDTH, k, (a + b) % WIDTH);
  }

  /** Init, Update for every piece, Final: only the message matters, not how it was cut. */
  method HashPieces(pieces: seq<seq<Byte>>) returns (digest: seq<Byte>)
    requires forall i :: 0 <= i < |pieces| ==> |pieces[i]| < WIDTH
    ensures digest == Encode(HashOf(Join(pieces, |pieces|)))
  {
    hide HashOf, Encode, Context.Holds, Fold, View;
    var ctx := new Context();
    for i := 0 to |pieces|
      invariant ctx.Holds(Join(pieces, i)) && fresh(ctx) && fresh(ctx.state) && fresh(ctx.buf)
    {
      ctx.Update(pieces[i], Join(pieces, i));
    }
    digest := ctx.Final(Join(pieces, |pieces|));
  }
}
