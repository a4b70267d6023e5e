/** MD5 of a message piece by piece (openwrt/scripts/mkhash.c:181-388) against padding the whole message
    (sections 3.1 to 3.4 of RFC 1321), for any block function. */
module Md5Stream {
  import opened Bytes

  const LO: nat := 0x2000_0000
  const HI: nat := 0x1_0000_0000

  // ----------------------------------------------------------- the standard

  /** A 64-bit number, least significant byte first. */
  function Le64(n: nat): (b: seq<Byte>)
    requires n < WIDTH
    ensures |b| == 8
  {
    [n % 256, n / 0x100 % 256, n / 0x1_0000 % 256, n / 0x100_0000 % 256,
     n / 0x1_0000_0000 % 256, n / 0x100_0000_0000 % 256, n / 0x1_0000_0000_0000 % 256, n / 0x100_0000_0000_0000]
  }

  function Padding(n: nat): seq<Byte> { [0x80] + Zeros((119 - n % 64) % 64) + Le64(8 * n % WIDTH) }

  lemma PaddingFillsBlocks(n: nat)
    ensures (n + |Padding(n)|) % 64 == 0
  {
    WholeBlocks(n, n % 64);
    assert |Padding(n)| == if n % 64 < 56 then 64 - n % 64 else 128 - n % 64;
  }

  function FromLe(b: seq<Byte>): int {
    if b == [] then 0 else (b[0] as int) + 256 * FromLe(b[1..])
  }

  /** A number is its lowest byte and the rest. */
  lemma LowestByte(n: nat, d: nat, b: seq<Byte>, i: nat)
    requires d > 0 && i < |b| && b[i] == n / d % 256 && FromLe(b[i + 1..]) == n / d / 256
    ensures FromLe(b[i..]) == n / d
  {
    assert b[i..][1..] == b[i + 1..];
  }

  /** The length field reads back as the number. */
  lemma Le64Decodes(n: nat)
    requires n < WIDTH
    ensures FromLe(Le64(n)) == n
  {
    var b := Le64(n);
    DivTwice(n);
    assert b[8..] == [] && b[0..] == b && FromLe(b[8..]) == 0 == n / 0x100_0000_0000_0000 / 256;
    hide FromLe, Le64;
    LowestByte(n, 0x100_0000_0000_0000, b, 7);
    LowestByte(n, 0x1_0000_0000_0000, b, 6);
    LowestByte(n, 0x100_0000_0000, b, 5);
    LowestByte(n, 0x1_0000_0000, b, 4);
    LowestByte(n, 0x100_0000, b, 3);
    LowestByte(n, 0x1_0000, b, 2);
    LowestByte(n, 0x100, b, 1);
    LowestByte(n, 1, b, 0);
  }

  /** Byte for byte: a one bit, zero bits, and the length in bits, least significant byte
      first. */
  lemma PaddingBytes(n: nat)
    ensures var p := Padding(n);
            && |p| >= 9 && p[0] == 0x80 && (forall i :: 1 <= i < |p| - 8 ==> p[i] == 0)
            && FromLe(p[|p| - 8..]) == 8 * n % WIDTH
  {
    var zeros := Zeros((119 - n % 64) % 64);
    Le64Decodes(8 * n % WIDTH);
    hide Le64, FromLe;
    var p, k := Padding(n), |zeros|;
    assert p[k + 1..] == Le64(8 * n % WIDTH);
    assert forall i :: 0 <= i < k ==> zeros[i] == 0 && p[i + 1] == zeros[i];
  }

  /** The four words after a whole message. */
  function HashOf<S>(mix: (S, seq<Byte>) -> S, initial: S, m: seq<Byte>): S {
    PaddingFillsBlocks(|m|);
    Fold(mix, initial, m + Padding(|m|))
  }

  // ------------------------------------------------------- the byte counter

  /** `lo` and `hi` together count n modulo 2^61. */
  predicate Counts(lo: nat, hi: nat, n: nat) { lo < LO && hi < HI && hi * LO + lo == n % (LO * HI) }

  /** The counter that `size` more bytes leave: `lo` keeps 29 bits, `hi` 32. */
  function Counted(lo: nat, hi: nat, size: nat): (nat, nat) {
    var lo' := (lo + size) % LO;
    (lo', (hi + (if lo' < lo then 1 else 0) + size / LO) % HI)
  }

  /** Together they count the bytes modulo 2^61, carry included. */
  lemma CounterCounts(lo: nat, hi: nat, size: nat, n: nat)
    requires Counts(lo, hi, n)
    ensures var c := Counted(lo, hi, size); Counts(c.0, c.1, n + size)
  {
    var lo', s, t := (lo + size) % LO, size % LO, size / LO;
    var carry := if lo' < lo then 1 else 0;
    assert size == LO * t + s;
    assert lo + s == LO * carry + lo';
    var h := hi + carry + t;
    assert h * LO + lo' == n % (LO * HI) + size;
    var q, k := h / HI, n / (LO * HI);
    assert h == HI * q + h % HI;
    ModIs61(n + size, k + q, (h % HI) * LO + lo');
  }

  lemma ModIs61(x: nat, k: nat, r: nat)
    requires x == LO * HI * k + r && r < LO * HI
    ensures x % (LO * HI) == r
  {
  }

  /** The bytes MD5_end stores: lo shifted by three, then hi. */
  function LengthField(lo: nat, hi: nat): (b: seq<Byte>)
    requires lo < LO && hi < HI
    ensures |b| == 8
  {
    var l := lo * 8;
    [l % 256, l / 0x100 % 256, l / 0x1_0000 % 256, l / 0x100_0000,
     hi % 256, hi / 0x100 % 256, hi / 0x1_0000 % 256, hi / 0x100_0000]
  }

  lemma LengthFieldIsBits(lo: nat, hi: nat, n: nat)
    requires Counts(lo, hi, n)
    ensures LengthField(lo, hi) == Le64(8 * n % WIDTH)
  {
    var l := lo * 8;
    ModIs(8 * n, n / (LO * HI), hi * HI + l);
    Bytewise(l, hi);
  }

  lemma Bytewise(l: nat, hi: nat)
    requires l < HI && hi < HI
    ensures var v := hi * HI + l;
            && v % 256 == l % 256 && v / 0x100 % 256 == l / 0x100 % 256
            && v / 0x1_0000 % 256 == l / 0x1_0000 % 256 && v / 0x100_0000 % 256 == l / 0x100_0000
            && v / 0x1_0000_0000 == hi && v / 0x100_0000_0000 == hi / 0x100
            && v / 0x1_0000_0000_0000 == hi / 0x1_0000 && v / 0x100_0000_0000_0000 == hi / 0x100_0000
  {
    LowBytes(l, hi);
    HighBytes(hi * HI + l, l, hi);
    Mod256(hi * 0x100_0000, l);
    Mod256(hi * 0x1_0000, l / 0x100);
    Mod256(hi * 0x100, l / 0x1_0000);
    Mod256(hi, l / 0x100_0000);
  }

  lemma LowBytes(l: nat, hi: nat)
    ensures (hi * HI + l) / 0x100 == 256 * (hi * 0x1_0000) + l / 0x100
    ensures (hi * HI + l) / 0x1_0000 == 256 * (hi * 0x100) + l / 0x1_0000
    ensures (hi * HI + l) / 0x100_0000 == 256 * hi + l / 0x100_0000
  {
  }

  lemma HighBytes(v: nat, l: nat, hi: nat)
    requires v == hi * HI + l && l < HI
    ensures v / 0x1_0000_0000 == hi && v / 0x100_0000_0000 == hi / 0x100
    ensures v / 0x1_0000_0000_0000 == hi / 0x1_0000 && v / 0x100_0000_0000_0000 == hi / 0x100_0000
  {
  }

  lemma Mod256(a: nat, b: nat)
    ensures (256 * a + b) % 256 == b % 256
  {
  }

  lemma CounterBounds(lo: nat, hi: nat, n: nat)
    requires Counts(lo, hi, n)
    ensures lo < LO && hi < HI
  {
  }

  /** The number of buffered bytes can be read off `lo`. */
  lemma Used(lo: nat, hi: nat, n: nat)
    requires Counts(lo, hi, n)
    ensures lo % 64 == n % 64
  {
    var q := n / (LO * HI);
    assert n == 64 * (0x80_0000 * HI * q + 0x80_0000 * hi) + lo;
    Mod64(n, 0x80_0000 * HI * q + 0x80_0000 * hi);
  }

  // ------------------------------------------------------------ the context

  /** MD5_CTX; `words` are a, b, c and d, and `mix` is one round of the loop of MD5_body. */
  class Context<S(!new)> {
    const mix: (S, seq<Byte>) -> S
    const initial: S
    var lo: nat
    var hi: nat
    var words: S
    const buffer: array<Byte>

    /** MD5_begin */
    constructor (mix: (S, seq<Byte>) -> S, initial: S)
      ensures Holds([]) && fresh(buffer) && this.mix == mix && this.initial == initial
    {
      this.mix, this.initial := mix, initial;
      lo, hi, words := 0, 0, initial;
      buffer := new Byte[64](i => 0);
    }

    /** The context after the bytes of `m`: their number modulo 2^61 in `hi` and `lo`, whole
        blocks in the words, the rest in the buffer. */
    ghost predicate Holds(m: seq<Byte>)
      reads this, buffer
    {
      && buffer.Length == 64 && Counts(lo, hi, |m|)
      && words == Fold(mix, initial, m[..Whole(|m|)])
      && buffer[..|m| % 64] == m[Whole(|m|)..]
    }

    /** MD5_body: one or more blocks */
    method Body(data: seq<Byte>, ghost front: seq<Byte>)
      requires |data| > 0 && |data| % 64 == 0 && |front| % 64 == 0 && words == Fold(mix, initial, front)
      modifies this`words
      ensures (|front| + |data|) % 64 == 0 && words == Fold(mix, initial, front + data)
    {
      var pos := 0;
      assert front + data[..0] == front;
      while true
        invariant 0 <= pos < |data| && pos % 64 == 0 && (|front| + pos) % 64 == 0
        invariant words == Fold(mix, initial, front + data[..pos])
        decreases |data| - pos
      {
        FoldBlock(mix, initial, front + data[..pos], data[pos..pos + 64]);
        assert front + data[..pos + 64] == front + data[..pos] + data[pos..pos + 64];
        words := mix(words, data[pos..pos + 64]);
        pos := pos + 64;
        if pos == |data| { break; }
      }
      assert data[..|data|] == data;
    }

    /** MD5_hash: the context after `m` becomes the context after `m + src`. */
    method Hash(src: seq<Byte>, ghost m: seq<Byte>)
      requires Holds(m) && |src| < WIDTH
      modifies this`lo, this`hi, this`words, buffer
      ensures Holds(m + src)
    {
      hide Fold, Counts;
      CounterBounds(lo, hi, |m|);
      var used := lo % 64;
      Used(lo, hi, |m|);
      CounterCounts(lo, hi, |src|, |m|);
      Count(|src|);
      FirstBlock(m, src);
      if used != 0 {
        if |src| < 64 - used {
          CopyInto(buffer, used, src);
          TailGrows(m, src);
          assert buffer[..used + |src|] == m[|m| - used..] + src;
          return;
        }
        FillBlock(src, used, m);
        Rest(src, 64 - used, m);
      } else {
        assert m[..|m|] == m && (m + src)[..|m|] == m;
        Rest(src, 0, m);
      }
    }

    method Count(size: nat)
      requires lo < LO && hi < HI
      modifies this`lo, this`hi
      ensures (lo, hi) == Counted(old(lo), old(hi), size)
    {
      var savedLo := lo;
      lo := (savedLo + size) % LO;
      if lo < savedLo { hi := (hi + 1) % HI; }
      hi := (hi + size / LO) % HI;
    }

    /** The buffered block is completed and mixed in. */
    method FillBlock(src: seq<Byte>, used: nat, ghost m: seq<Byte>)
      requires buffer.Length == 64 && used == |m| % 64 && 64 - used <= |src|
      requires words == Fold(mix, initial, m[..|m| - used]) && buffer[..used] == m[|m| - used..]
      modifies this`words, buffer
      ensures (|m| + 64 - used) % 64 == 0 && words == Fold(mix, initial, (m + src)[..|m| + 64 - used])
    {
      hide Fold;
      CopyInto(buffer, used, src[..64 - used]);
      FirstBlock(m, src);
      assert buffer[..] == m[|m| - used..] + src[..64 - used];
      Body(buffer[..], m[..|m| - used]);
    }

    /** Whole blocks straight from the data, and what is left over into the buffer */
    method Rest(src: seq<Byte>, start: nat, ghost m: seq<Byte>)
      requires buffer.Length == 64 && start <= |src| && (|m| + start) % 64 == 0
      requires Counts(lo, hi, |m + src|)
      requires words == Fold(mix, initial, (m + src)[..|m| + start])
      modifies this`words, buffer
      ensures Holds(m + src)
    {
      hide Fold;
      var pos := start;
      if |src| - pos >= 64 {
        var size := (|src| - pos) / 64 * 64;
        Body(src[pos..pos + size], (m + src)[..|m| + pos]);
        assert (m + src)[..|m| + pos + size] == (m + src)[..|m| + pos] + src[pos..pos + size];
        pos := pos + size;
      }
      CopyInto(buffer, 0, src[pos..]);
      LastPart(m, src, pos);
    }

    /** The end of MD5_end: the length goes into the last eight bytes, then the last block. */
    method FinishBlock(ghost front: seq<Byte>, ghost n: nat)
      requires buffer.Length == 64 && |front| % 64 == 0 == (|front| + 64) % 64
      requires Counts(lo, hi, n) && words == Fold(mix, initial, front)
      modifies this`lo, this`words, buffer
      ensures words == Fold(mix, initial, front + (old(buffer[..56]) + Le64(8 * n % WIDTH)))
    {
      hide Fold, Le64;
      var field := LengthField(lo, hi);
      LengthFieldIsBits(lo, hi, n);
      lo := lo * 8;
      CopyInto(buffer, 56, field);
      assert buffer[..] == old(buffer[..56]) + field;
      Body(buffer[..], front);
    }

    /** MD5_end when the length does not fit into the current block */
    method EndLong(used: nat, ghost m: seq<Byte>)
      requires Holds(m) && used == |m| % 64 >= 56
      modifies this`lo, this`words, buffer
      ensures words == HashOf(mix, initial, m)
    {
      hide Fold, Le64, Padding, Zeros, Counts;
      ghost var front, tail := m[..Whole(|m|)], m[Whole(|m|)..];
      PaddingFillsBlocks(|m|);
      LongPadding(m);
      CopyInto(buffer, used, [0x80]);
      CopyInto(buffer, used + 1, Zeros(63 - used));
      ghost var block := tail + ([0x80] + Zeros(63 - used));
      assert buffer[..] == block;
      Body(buffer[..], front);
      CopyInto(buffer, 0, Zeros(56));
      assert buffer[..56] == Zeros(56);
      FinishBlock(front + block, |m|);
    }

    /** MD5_end when the length fits into the current block */
    method EndShort(used: nat, ghost m: seq<Byte>)
      requires Holds(m) && used == |m| % 64 < 56
      modifies this`lo, this`words, buffer
      ensures words == HashOf(mix, initial, m)
    {
      hide Fold, Le64, Padding, Zeros, Counts;
      ghost var front, tail := m[..Whole(|m|)], m[Whole(|m|)..];
      PaddingFillsBlocks(|m|);
      ShortPadding(m);
      CopyInto(buffer, used, [0x80]);
      CopyInto(buffer, used + 1, Zeros(55 - used));
      assert buffer[..56] == tail + ([0x80] + Zeros(55 - used));
      FoldBlockSize(front);
      FinishBlock(front, |m|);
    }

    /** MD5_end: the words are the hash of the whole message, padded at once. */
    method End(ghost m: seq<Byte>)
      requires Holds(m)
      modifies this`lo, this`words, buffer
      ensures words == HashOf(mix, initial, m)
    {
      hide HashOf, Fold, Counts;
      var used := lo % 64;
      Used(lo, hi, |m|);
      if 64 - (used + 1) < 8 { EndLong(used, m); } else { EndShort(used, m); }
    }
  }

  lemma FoldBlockSize(front: seq<Byte>)
    requires |front| % 64 == 0
    ensures (|front| + 64) % 64 == 0
  {
  }

  lemma ShortPadding(m: seq<Byte>)
    requires |m| % 64 < 56
    ensures var r := |m| % 64;
            m + Padding(|m|)
            == m[..|m| - r] + ((m[|m| - r..] + ([0x80] + Zeros(55 - r))) + Le64(8 * |m| % WIDTH))
  {
    var r, one, last := |m| % 64, [0x80] + Zeros(55 - |m| % 64), Le64(8 * |m| % WIDTH);
    ZerosNeeded(|m|);
    assert Padding(|m|) == one + last;
    hide Le64, Padding;
    Associate(m[..|m| - r], m[|m| - r..], one, last);
    assert m[..|m| - r] + m[|m| - r..] == m;
  }

  lemma LongPadding(m: seq<Byte>)
    requires |m| % 64 >= 56
    ensures var r := |m| % 64;
            m + Padding(|m|)
            == (m[..|m| - r] + (m[|m| - r..] + ([0x80] + Zeros(63 - r)))) + (Zeros(56) + Le64(8 * |m| % WIDTH))
  {
    var r := |m| % 64;
    ZerosNeeded(|m|);
    assert ([0x80] + Zeros(63 - r)) + Zeros(56) == [0x80] + Zeros(119 - r);
    var one, rest := [0x80] + Zeros(63 - r), Zeros(56) + Le64(8 * |m| % WIDTH);
    assert one + rest == Padding(|m|);
    Associate(m[..|m| - r], m[|m| - r..], one, rest);
    assert m[..|m| - r] + m[|m| - r..] == m;
  }

  /** MD5_begin, MD5_hash for every piece, MD5_end: only the message matters, not how it was
      cut. */
  method HashPieces<S(!new)>(mix: (S, seq<Byte>) -> S, initial: S, pieces: seq<seq<Byte>>) returns (words: S)
    requires forall i :: 0 <= i < |pieces| ==> |pieces[i]| < WIDTH
    ensures words == HashOf(mix, initial, Join(pieces, |pieces|))
  {
    hide HashOf, Context.Holds, Fold;
    var ctx := new Context(mix, initial);
    for i := 0 to |pieces|
      invariant ctx.Holds(Join(pieces, i)) && fresh(ctx) && fresh(ctx.buffer)
      invariant ctx.mix == mix && ctx.initial == initial
    {
      ctx.Hash(pieces[i], Join(pieces, i));
    }
    ctx.End(Join(pieces, |pieces|));
    words := ctx.words;
  }
}
