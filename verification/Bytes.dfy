/** Bytes, and buffers that are filled a piece at a time. */
module Bytes {
  type Byte = x: int | 0 <= x < 256

  const WIDTH: nat := 0x1_0000_0000_0000_0000

  function Zeros(n: nat): (z: seq<Byte>)
    ensures |z| == n
  {
    seq(n, i => 0)
  }

  /** memcpy into a buffer */
  method CopyInto(dst: array<Byte>, at: nat, src: seq<Byte>)
    requires at + |src| <= dst.Length
    modifies dst
    ensures dst[..] == old(dst[..at]) + src + old(dst[at + |src|..])
  {
    for i := 0 to |src|
      invariant dst[..at] == old(dst[..at]) && dst[at..at + i] == src[..i]
      invariant dst[at + i..] == old(dst[at + i..])
    {
      dst[at + i] := src[i];
    }
  }

  lemma Associate(a: seq<Byte>, b: seq<Byte>, c: seq<Byte>, d: seq<Byte>)
    ensures (a + b) + (c + d) == a + ((b + c) + d) == (a + (b + c)) + d
  {
  }

  lemma ModIs(x: nat, k: int, r: nat)
    requires x == WIDTH * k + r && r < WIDTH
    ensures x % WIDTH == r && x / WIDTH == k
  {
  }

  lemma Mod64(n: nat, k: int)
    requires n - 64 * k >= 0
    ensures (n - 64 * k) % 64 == n % 64
  {
  }

  /** Dividing by 256 once more. */
  lemma DivTwice(n: nat)
    ensures n / 0x100 / 256 == n / 0x1_0000 && n / 0x1_0000 / 256 == n / 0x100_0000
    ensures n / 0x100_0000 / 256 == n / 0x1_0000_0000 && n / 0x1_0000_0000 / 256 == n / 0x100_0000_0000
    ensures n / 0x100_0000_0000 / 256 == n / 0x1_0000_0000_0000
    ensures n / 0x1_0000_0000_0000 / 256 == n / 0x100_0000_0000_0000
  {
  }

  // ------------------------------------------------------ blocks of 64 bytes

  /** How many of n bytes are in whole blocks. */
  function Whole(n: nat): (w: nat)
    ensures w <= n && w % 64 == 0 && n - w == n % 64
  {
    n - n % 64
  }

  /** How many zero bytes follow the one bit, when the length still fits and when it does
      not. */
  lemma ZerosNeeded(n: nat)
    ensures n % 64 < 56 ==> (119 - n % 64) % 64 == 55 - n % 64
    ensures n % 64 >= 56 ==> (119 - n % 64) % 64 == 119 - n % 64
  {
  }

  lemma WholeBlocks(n: nat, r: nat)
    requires n % 64 == r
    ensures (n + 64 - r) % 64 == 0 && (n + 128 - r) % 64 == 0
  {
    assert n == 64 * (n / 64) + r;
  }

  /** What `mix` makes of the blocks of `data`, one after the other. */
  function Fold<S>(mix: (S, seq<Byte>) -> S, s: S, data: seq<Byte>): S
    requires |data| % 64 == 0
    decreases |data|
  {
    if data == [] then s else Fold(mix, mix(s, data[..64]), data[64..])
  }

  lemma {:induction false} FoldConcat<S>(mix: (S, seq<Byte>) -> S, s: S, a: seq<Byte>, b: seq<Byte>)
    requires |a| % 64 == 0 && |b| % 64 == 0
    ensures Fold(mix, s, a + b) == Fold(mix, Fold(mix, s, a), b)
    decreases |a|
  {
    if a == [] {
      assert a + b == b;
    } else {
      assert (a + b)[..64] == a[..64] && (a + b)[64..] == a[64..] + b;
      FoldConcat(mix, mix(s, a[..64]), a[64..], b);
    }
  }

  lemma FoldOne<S>(mix: (S, seq<Byte>) -> S, s: S, block: seq<Byte>)
    requires |block| == 64
    ensures Fold(mix, s, block) == mix(s, block)
  {
    assert block[..64] == block && block[64..] == [];
  }

  lemma {:induction false} FoldBlock<S>(mix: (S, seq<Byte>) -> S, s: S, a: seq<Byte>, block: seq<Byte>)
    requires |a| % 64 == 0 && |block| == 64
    ensures (|a| + 64) % 64 == 0 && Fold(mix, s, a + block) == mix(Fold(mix, s, a), block)
  {
    FoldConcat(mix, s, a, block);
    FoldOne(mix, Fold(mix, s, a), block);
  }

  /** The first n pieces, one after the other. */
  function Join(pieces: seq<seq<Byte>>, n: nat): seq<Byte>
    requires n <= |pieces|
  {
    if n == 0 then [] else Join(pieces, n - 1) + pieces[n - 1]
  }

  lemma TailGrows(m: seq<Byte>, src: seq<Byte>)
    requires |src| < 64 - |m| % 64
    ensures var all, r := m + src, |m| % 64;
            && |all| % 64 == r + |src| && |all| - |all| % 64 == |m| - r
            && all[..|m| - r] == m[..|m| - r] && all[|m| - r..] == m[|m| - r..] + src
  {
  }

  lemma FirstBlock(m: seq<Byte>, src: seq<Byte>)
    ensures var r := |m| % 64; (|m| + 64 - r) % 64 == (|m| - r) % 64 == 0
    ensures var r := |m| % 64;
            64 - r <= |src| ==>
            (m + src)[..|m| + 64 - r] == m[..|m| - r] + (m[|m| - r..] + src[..64 - r])
  {
  }

  lemma NextBlock(m: seq<Byte>, src: seq<Byte>, pos: nat)
    requires pos + 64 <= |src|
    ensures (m + src)[..|m| + pos + 64] == (m + src)[..|m| + pos] + src[pos..pos + 64]
  {
  }

  lemma LastPart(m: seq<Byte>, src: seq<Byte>, pos: nat)
    requires pos <= |src| < pos + 64 && (|m| + pos) % 64 == 0
    ensures var all := m + src;
            |all| % 64 == |src| - pos && |all| - |all| % 64 == |m| + pos && all[|m| + pos..] == src[pos..]
  {
  }

  lemma FrontOf(all: seq<Byte>, a: seq<Byte>, b: seq<Byte>, c: seq<Byte>)
    requires all == a + b + c
    ensures all[..|a| + |b|] == a + b
  {
  }
}
