/** The SHA-256 block function (openwrt/scripts/mkhash.c:111-126, 429-555) against sections 4.1.2,
    6.2.1 and 6.2.2 of FIPS 180-4. */
module Sha256 {
  import opened Bytes

  type Word = bv32

  // ------------------------------------------------------- the standard

  const ROUND_CONSTANTS: seq<seq<Word>> := [
    [0x428a2f98, 0x71374491, 0xb5c0fbcf, 0xe9b5dba5, 0x3956c25b, 0x59f111f1, 0x923f82a4, 0xab1c5ed5],
    [0xd807aa98, 0x12835b01, 0x243185be, 0x550c7dc3, 0x72be5d74, 0x80deb1fe, 0x9bdc06a7, 0xc19bf174],
    [0xe49b69c1, 0xefbe4786, 0x0fc19dc6, 0x240ca1cc, 0x2de92c6f, 0x4a7484aa, 0x5cb0a9dc, 0x76f988da],
    [0x983e5152, 0xa831c66d, 0xb00327c8, 0xbf597fc7, 0xc6e00bf3, 0xd5a79147, 0x06ca6351, 0x14292967],
    [0x27b70a85, 0x2e1b2138, 0x4d2c6dfc, 0x53380d13, 0x650a7354, 0x766a0abb, 0x81c2c92e, 0x92722c85],
    [0xa2bfe8a1, 0xa81a664b, 0xc24b8b70, 0xc76c51a3, 0xd192e819, 0xd6990624, 0xf40e3585, 0x106aa070],
    [0x19a4c116, 0x1e376c08, 0x2748774c, 0x34b0bcb5, 0x391c0cb3, 0x4ed8aa4a, 0x5b9cca4f, 0x682e6ff3],
    [0x748f82ee, 0x78a5636f, 0x84c87814, 0x8cc70208, 0x90befffa, 0xa4506ceb, 0xbef9a3f7, 0xc67178f2]]

  function K(t: nat): Word
    requires t < 64
  {
    ROUND_CONSTANTS[t / 8][t % 8]
  }

  /** Addition modulo 2^32, as a function of its own so that proofs can set it aside. */
  function Plus(x: Word, y: Word): Word { x + y }

  /** It counts up from the first operand as often as the second says. */
  lemma PlusCounts(x: Word, y: Word)
    ensures Plus(x, 0) == x && Plus(x, y + 1) == Plus(x, y) + 1
  {
  }

  function Ch(x: Word, y: Word, z: Word): Word { (x & y) ^ (!x & z) }

  function Maj(x: Word, y: Word, z: Word): Word { (x & y) ^ (x & z) ^ (y & z) }

  function Rotr(x: Word, n: Word): Word
    requires 0 < n < 32
  {
    (x >> n) | (x << (32 - n))
  }

  function Shr(x: Word, n: Word): Word
    requires n < 32
  {
    x >> n
  }

  /** Addition bit by bit, modulo 2. */
  function Sum(x: Word, y: Word, z: Word): Word { x ^ y ^ z }

  function BigSigma0(x: Word): Word { Sum(Rotr(x, 2), Rotr(x, 13), Rotr(x, 22)) }

  function BigSigma1(x: Word): Word { Sum(Rotr(x, 6), Rotr(x, 11), Rotr(x, 25)) }

  function Sigma0(x: Word): Word { Sum(Rotr(x, 7), Rotr(x, 18), Shr(x, 3)) }

  function Sigma1(x: Word): Word { Sum(Rotr(x, 17), Rotr(x, 19), Shr(x, 10)) }

  /** Bit i of a word, counted from the last one. */
  predicate Bit(x: Word, i: Word)
    requires i < 32
  {
    (x >> i) & 1 == 1
  }

  /** The place of the bit that a rotation to the right by n brings to place i. */
  function From(i: Word, n: Word): (j: Word)
    requires i < 32 && n < 32
    ensures j < 32
  {
    (i + n) & 31
  }

  /** The bit that a shift to the right by n brings there. */
  predicate Behind(x: Word, i: Word, n: Word)
    requires i < 32 && n < 32
  {
    i + n < 32 && Bit(x, i + n)
  }

  /** The sum of three bits modulo 2. */
  predicate Odd(a: bool, b: bool, c: bool) { (a != b) != c }

  lemma RotatedBits(x: Word, n: Word, i: Word)
    requires 0 < n < 32 && i < 32
    ensures Bit((x >> n) | (x << (32 - n)), i) <==> Bit(x, (i + n) & 31)
  {
  }

  lemma RotatedBit(x: Word, n: Word, i: Word)
    requires 0 < n < 32 && i < 32
    ensures Bit(Rotr(x, n), i) <==> Bit(x, From(i, n))
  {
    hide Bit;
    RotatedBits(x, n, i);
  }

  lemma ShiftedBits(x: Word, n: Word, i: Word)
    requires n < 32 && i < 32
    ensures Bit(x >> n, i) <==> i + n < 32 && Bit(x, i + n)
  {
  }

  lemma ShiftedBit(x: Word, n: Word, i: Word)
    requires n < 32 && i < 32
    ensures Bit(Shr(x, n), i) <==> Behind(x, i, n)
  {
    hide Bit;
    ShiftedBits(x, n, i);
  }

  lemma SumBits(x: Word, y: Word, z: Word, i: Word)
    requires i < 32
    ensures Bit(x ^ y ^ z, i) <==> Odd(Bit(x, i), Bit(y, i), Bit(z, i))
  {
  }

  lemma SumBit(x: Word, y: Word, z: Word, i: Word)
    requires i < 32
    ensures Bit(Sum(x, y, z), i) <==> Odd(Bit(x, i), Bit(y, i), Bit(z, i))
  {
    hide Bit;
    SumBits(x, y, z, i);
  }

  /** The four functions, bit by bit: each bit is the sum of three rotated ones, or of two and
      a shifted one. */
  lemma BigSigmaBits(x: Word, i: Word)
    requires i < 32
    ensures Bit(BigSigma0(x), i) <==> Odd(Bit(x, From(i, 2)), Bit(x, From(i, 13)), Bit(x, From(i, 22)))
    ensures Bit(BigSigma1(x), i) <==> Odd(Bit(x, From(i, 6)), Bit(x, From(i, 11)), Bit(x, From(i, 25)))
  {
    hide Bit, Rotr, From, Sum;
    SumBit(Rotr(x, 2), Rotr(x, 13), Rotr(x, 22), i);
    RotatedBit(x, 2, i);
    RotatedBit(x, 13, i);
    RotatedBit(x, 22, i);
    SumBit(Rotr(x, 6), Rotr(x, 11), Rotr(x, 25), i);
    RotatedBit(x, 6, i);
    RotatedBit(x, 11, i);
    RotatedBit(x, 25, i);
  }

  lemma SmallSigmaBits(x: Word, i: Word)
    requires i < 32
    ensures Bit(Sigma0(x), i) <==> Odd(Bit(x, From(i, 7)), Bit(x, From(i, 18)), Behind(x, i, 3))
    ensures Bit(Sigma1(x), i) <==> Odd(Bit(x, From(i, 17)), Bit(x, From(i, 19)), Behind(x, i, 10))
  {
    hide Bit, Rotr, From, Sum, Shr, Behind;
    SumBit(Rotr(x, 7), Rotr(x, 18), Shr(x, 3), i);
    ShiftedBit(x, 3, i);
    RotatedBit(x, 7, i);
    RotatedBit(x, 18, i);
    SumBit(Rotr(x, 17), Rotr(x, 19), Shr(x, 10), i);
    ShiftedBit(x, 10, i);
    RotatedBit(x, 17, i);
    RotatedBit(x, 19, i);
  }

  /** The 32-bit word at position t of a block, most significant byte first. */
  function BlockWord(m: seq<Byte>, t: nat): Word
    requires |m| == 64 && t < 16
  {
    ((m[4 * t] as Word) << 24) | ((m[4 * t + 1] as Word) << 16) | ((m[4 * t + 2] as Word) << 8) | (m[4 * t + 3] as Word)
  }

  /** The message schedule. */
  function W(m: seq<Byte>, t: nat): Word
    requires |m| == 64 && t < 64
  {
    if t < 16 then BlockWord(m, t)
    else Plus(Plus(Plus(Sigma1(W(m, t - 2)), W(m, t - 7)), Sigma0(W(m, t - 15))), W(m, t - 16))
  }

  /** The eight working variables. */
  datatype Eight = Eight(a: Word, b: Word, c: Word, d: Word, e: Word, f: Word, g: Word, h: Word)

  function Round(s: Eight, k: Word, w: Word): Eight {
    var t1 := Plus(Plus(Plus(Plus(s.h, BigSigma1(s.e)), Ch(s.e, s.f, s.g)), k), w);
    var t2 := Plus(BigSigma0(s.a), Maj(s.a, s.b, s.c));
    Eight(Plus(t1, t2), s.a, s.b, s.c, Plus(s.d, t1), s.e, s.f, s.g)
  }

  function Rounds(s: Eight, m: seq<Byte>, t: nat): Eight
    requires |m| == 64 && t <= 64
  {
    if t == 0 then s else Round(Rounds(s, m, t - 1), K(t - 1), W(m, t - 1))
  }

  /** The hash value after one more block. */
  function Compress(s: Eight, m: seq<Byte>): Eight
    requires |m| == 64
  {
    var r := Rounds(s, m, 64);
    Eight(Plus(s.a, r.a), Plus(s.b, r.b), Plus(s.c, r.c), Plus(s.d, r.d),
          Plus(s.e, r.e), Plus(s.f, r.f), Plus(s.g, r.g), Plus(s.h, r.h))
  }

  // ------------------------------------------------- the optimised macros

  function FastCh(x: Word, y: Word, z: Word): Word { (x & (y ^ z)) ^ z }

  function FastMaj(x: Word, y: Word, z: Word): Word { (x & (y | z)) | (y & z) }

  lemma ChooseBits(x: Word, y: Word, z: Word)
    ensures (x & (y ^ z)) ^ z == (x & y) ^ (!x & z)
  {
  }

  lemma MajorityBits(x: Word, y: Word, z: Word)
    ensures (x & (y | z)) | (y & z) == (x & y) ^ (x & z) ^ (y & z)
  {
  }

  lemma FastIsExact(x: Word, y: Word, z: Word)
    ensures FastCh(x, y, z) == Ch(x, y, z) && FastMaj(x, y, z) == Maj(x, y, z)
  {
    ChooseBits(x, y, z);
    MajorityBits(x, y, z);
  }

  /** be32dec, out of two be16dec */
  function Be32Dec(p: seq<Byte>): Word
    requires |p| == 4
  {
    ((((p[0] as Word) << 8) | (p[1] as Word)) << 16) | (((p[2] as Word) << 8) | (p[3] as Word))
  }

  lemma DecodedWord(a: Word, b: Word, c: Word, d: Word)
    ensures (((a << 8) | b) << 16) | ((c << 8) | d) == (a << 24) | (b << 16) | (c << 8) | d
  {
  }

  // -------------------------------------------------- the block, in place

  /** The working variables as round i finds them: the roles rotate, the values stay put. */
  function View(v: seq<Word>, i: nat): Eight
    requires |v| == 8 && i <= 64
  {
    Eight(v[(64 - i) % 8], v[(65 - i) % 8], v[(66 - i) % 8], v[(67 - i) % 8],
          v[(68 - i) % 8], v[(69 - i) % 8], v[(70 - i) % 8], v[(71 - i) % 8])
  }

  lemma PlusIsFree(x: Word, y: Word, z: Word)
    ensures Plus(x, Plus(y, z)) == Plus(Plus(x, y), z) && Plus(x, y) == Plus(y, x)
  {
  }

  /** RND: three assignments to two of the variables. */
  function Mixed(s: Eight, k: Word): Eight {
    var h1 := Plus(s.h, Plus(Plus(BigSigma1(s.e), FastCh(s.e, s.f, s.g)), k));
    var h2 := Plus(h1, Plus(BigSigma0(s.a), FastMaj(s.a, s.b, s.c)));
    Eight(h2, s.a, s.b, s.c, Plus(s.d, h1), s.e, s.f, s.g)
  }

  lemma SumIsFree(h: Word, s: Word, c: Word, w: Word, k: Word)
    ensures Plus(h, Plus(Plus(s, c), Plus(w, k))) == Plus(Plus(Plus(Plus(h, s), c), k), w)
  {
    hide Plus;
    PlusIsFree(w, k, k);
    PlusIsFree(Plus(s, c), k, w);
    PlusIsFree(h, Plus(Plus(s, c), k), w);
    PlusIsFree(h, Plus(s, c), k);
    PlusIsFree(h, s, c);
  }

  lemma MixedIsRound(s: Eight, k: Word, w: Word)
    ensures Mixed(s, Plus(w, k)) == Round(s, k, w)
  {
    hide Plus, BigSigma0, BigSigma1, Ch, Maj, FastCh, FastMaj;
    FastIsExact(s.e, s.f, s.g);
    FastIsExact(s.a, s.b, s.c);
    SumIsFree(s.h, BigSigma1(s.e), Ch(s.e, s.f, s.g), w, k);
  }

  lemma ModPlus(x: nat, k: nat)
    ensures (x + k) % 8 == (x % 8 + k) % 8
  {
  }

  lemma Turn(i: nat)
    requires i < 16
    ensures var r := (64 - i) % 8;
            && (65 - i) % 8 == (r + 1) % 8 && (66 - i) % 8 == (r + 2) % 8 && (67 - i) % 8 == (r + 3) % 8
            && (68 - i) % 8 == (r + 4) % 8 && (69 - i) % 8 == (r + 5) % 8 && (70 - i) % 8 == (r + 6) % 8
            && (71 - i) % 8 == (r + 7) % 8 && (64 - (i + 1)) % 8 == (r + 7) % 8
  {
    var x := 64 - i;
    ModPlus(x, 1);
    ModPlus(x, 2);
    ModPlus(x, 3);
    ModPlus(x, 4);
    ModPlus(x, 5);
    ModPlus(x, 6);
    ModPlus(x, 7);
    ModPlus(x - 1, 8);
  }

  /** What round i leaves, in terms of what it finds: `z` is `v` with d and h stored. */
  ghost predicate Stores(v: seq<Word>, z: seq<Word>, r: nat, d: Word, h: Word)
    requires r < 8
  {
    && |v| == |z| == 8 && z[(r + 7) % 8] == h && z[(r + 3) % 8] == d
    && z[r] == v[r] && z[(r + 1) % 8] == v[(r + 1) % 8] && z[(r + 2) % 8] == v[(r + 2) % 8]
    && z[(r + 4) % 8] == v[(r + 4) % 8] && z[(r + 5) % 8] == v[(r + 5) % 8] && z[(r + 6) % 8] == v[(r + 6) % 8]
  }

  lemma UpdateStores(v: seq<Word>, r: nat, d: Word, h: Word)
    requires |v| == 8 && r < 8
    ensures Stores(v, v[(r + 3) % 8 := d][(r + 7) % 8 := h], r, d, h)
  {
  }

  /** Where the next round finds its variables. */
  lemma Rotated(v: seq<Word>, i: nat, d: Word, h: Word)
    requires |v| == 8 && i < 16
    ensures var x := View(v, i);
            View(v[(67 - i) % 8 := d][(71 - i) % 8 := h], i + 1) == Eight(h, x.a, x.b, x.c, d, x.e, x.f, x.g)
  {
    Turn(i);
    UpdateStores(v, (64 - i) % 8, d, h);
  }

  /** The first n words of the schedule are there. */
  ghost predicate Scheduled(wv: seq<Word>, m: seq<Byte>, n: nat)
    requires |m| == 64
  {
    n <= 64 == |wv| && forall t :: 0 <= t < n ==> wv[t] == W(m, t)
  }

  /** RND with the variables of round i: one round of the standard, in place. */
  method RoundWith(S: array<Word>, i: nat, w: Word, k: Word)
    requires S.Length == 8 && i < 16
    modifies S
    ensures View(S[..], i + 1) == Round(old(View(S[..], i)), k, w)
  {
    hide Plus, BigSigma0, BigSigma1, FastCh, FastMaj, Round;
    ghost var v := S[..];
    var a, b, c, d := (64 - i) % 8, (65 - i) % 8, (66 - i) % 8, (67 - i) % 8;
    var e, f, g, h := (68 - i) % 8, (69 - i) % 8, (70 - i) % 8, (71 - i) % 8;
    ApartFromD(i);
    S[h] := Plus(S[h], Plus(Plus(BigSigma1(S[e]), FastCh(S[e], S[f], S[g])), Plus(w, k)));
    S[d] := Plus(S[d], S[h]);
    S[h] := Plus(S[h], Plus(BigSigma0(S[a]), FastMaj(S[a], S[b], S[c])));
    assert S[..] == v[d := S[d]][h := S[h]];
    Rotated(v, i, S[d], S[h]);
    MixedIsRound(View(v, i), k, w);
  }

  /** RNDr: round i of the group that starts at ii */
  method RoundAt(S: array<Word>, wv: array<Word>, i: nat, ii: nat, ghost m: seq<Byte>, ghost s: Eight)
    requires S.Length == 8 && wv.Length == 64 && S != wv && |m| == 64 && i < 16 && ii <= 48
    requires Scheduled(wv[..], m, ii + 16) && View(S[..], i) == Rounds(s, m, ii + i)
    modifies S
    ensures View(S[..], i + 1) == Rounds(s, m, ii + i + 1)
  {
    hide K, W, View, Round, Rounds;
    RoundsStep(s, m, ii + i);
    assert wv[..][i + ii] == W(m, i + ii);
    RoundWith(S, i, wv[i + ii], K(i + ii));
  }

  lemma ApartFromD(i: nat)
    requires i < 16
    ensures (67 - i) % 8 != (71 - i) % 8 && (64 - i) % 8 != (71 - i) % 8 && (64 - i) % 8 != (67 - i) % 8
    ensures (65 - i) % 8 != (71 - i) % 8 && (65 - i) % 8 != (67 - i) % 8
    ensures (66 - i) % 8 != (71 - i) % 8 && (66 - i) % 8 != (67 - i) % 8
  {
  }

  lemma RoundsStep(s: Eight, m: seq<Byte>, t: nat)
    requires |m| == 64 && t < 64
    ensures Rounds(s, m, t + 1) == Round(Rounds(s, m, t), K(t), W(m, t))
  {
  }

  /** The sixteen rounds of a group: afterwards every variable is back in its place. */
  method Mix(S: array<Word>, wv: array<Word>, ii: nat, ghost m: seq<Byte>, ghost s: Eight)
    requires S.Length == 8 && wv.Length == 64 && S != wv && |m| == 64 && ii <= 48
    requires Scheduled(wv[..], m, ii + 16) && View(S[..], 0) == Rounds(s, m, ii)
    modifies S
    ensures View(S[..], 0) == Rounds(s, m, ii + 16)
  {
    hide Rounds, W, View, Scheduled;
    RoundAt(S, wv, 0, ii, m, s);
    RoundAt(S, wv, 1, ii, m, s);
    RoundAt(S, wv, 2, ii, m, s);
    RoundAt(S, wv, 3, ii, m, s);
    RoundAt(S, wv, 4, ii, m, s);
    RoundAt(S, wv, 5, ii, m, s);
    RoundAt(S, wv, 6, ii, m, s);
    RoundAt(S, wv, 7, ii, m, s);
    RoundAt(S, wv, 8, ii, m, s);
    RoundAt(S, wv, 9, ii, m, s);
    RoundAt(S, wv, 10, ii, m, s);
    RoundAt(S, wv, 11, ii, m, s);
    RoundAt(S, wv, 12, ii, m, s);
    RoundAt(S, wv, 13, ii, m, s);
    RoundAt(S, wv, 14, ii, m, s);
    RoundAt(S, wv, 15, ii, m, s);
    SameView(S[..]);
  }

  lemma SameView(v: seq<Word>)
    requires |v| == 8
    ensures View(v, 16) == View(v, 0)
  {
  }

  /** MSCH: word i + 16 of the group that starts at ii */
  method ScheduleAt(wv: array<Word>, ii: nat, i: nat, ghost m: seq<Byte>)
    requires wv.Length == 64 && |m| == 64 && i < 16 && ii <= 32
    requires Scheduled(wv[..], m, ii + i + 16)
    modifies wv
    ensures Scheduled(wv[..], m, ii + i + 17)
  {
    hide Plus, Sigma0, Sigma1;
    wv[i + ii + 16] := Plus(Plus(Plus(Sigma1(wv[i + ii + 14]), wv[i + ii + 9]), Sigma0(wv[i + ii + 1])), wv[i + ii]);
    assert W(m, i + ii + 16) == wv[i + ii + 16];
  }

  /** The next sixteen words of the schedule. */
  method ScheduleGroup(wv: array<Word>, ii: nat, ghost m: seq<Byte>)
    requires wv.Length == 64 && |m| == 64 && ii <= 32
    requires Scheduled(wv[..], m, ii + 16)
    modifies wv
    ensures Scheduled(wv[..], m, ii + 32)
  {
    hide W, Scheduled;
    ScheduleAt(wv, ii, 0, m);
    ScheduleAt(wv, ii, 1, m);
    ScheduleAt(wv, ii, 2, m);
    ScheduleAt(wv, ii, 3, m);
    ScheduleAt(wv, ii, 4, m);
    ScheduleAt(wv, ii, 5, m);
    ScheduleAt(wv, ii, 6, m);
    ScheduleAt(wv, ii, 7, m);
    ScheduleAt(wv, ii, 8, m);
    ScheduleAt(wv, ii, 9, m);
    ScheduleAt(wv, ii, 10, m);
    ScheduleAt(wv, ii, 11, m);
    ScheduleAt(wv, ii, 12, m);
    ScheduleAt(wv, ii, 13, m);
    ScheduleAt(wv, ii, 14, m);
    ScheduleAt(wv, ii, 15, m);
  }

  /** be32dec_vect */
  method Decode(wv: array<Word>, block: seq<Byte>)
    requires wv.Length == 64 && |block| == 64
    modifies wv
    ensures Scheduled(wv[..], block, 16)
  {
    for i := 0 to 16
      invariant forall t :: 0 <= t < i ==> wv[t] == W(block, t)
    {
      wv[i] := Be32Dec(block[4 * i..4 * i + 4]);
      DecodedBlockWord(block, i);
    }
  }

  lemma DecodedBlockWord(m: seq<Byte>, t: nat)
    requires |m| == 64 && t < 16
    ensures Be32Dec(m[4 * t..4 * t + 4]) == BlockWord(m, t)
  {
    DecodedWord(m[4 * t] as Word, m[4 * t + 1] as Word, m[4 * t + 2] as Word, m[4 * t + 3] as Word);
  }

  /** Steps 1 to 3 of SHA256_Transform. */
  method Scramble(state: array<Word>, block: seq<Byte>) returns (S: array<Word>)
    requires state.Length == 8 && |block| == 64
    ensures fresh(S) && S.Length == 8
    ensures View(S[..], 0) == Rounds(View(state[..], 0), block, 64)
  {
    hide W, Rounds, View, Scheduled;
    var wv := new Word[64];
    S := new Word[8];
    Decode(wv, block);
    for i := 0 to 8
      invariant forall k :: 0 <= k < i ==> S[k] == state[k]
      invariant Scheduled(wv[..], block, 16)
    {
      S[i] := state[i];
    }
    assert S[..] == state[..];
    ghost var s := View(state[..], 0);
    NoRounds(s, block);
    var i := 0;
    while true
      invariant i == 0 || i == 16 || i == 32 || i == 48
      invariant Scheduled(wv[..], block, i + 16)
      invariant View(S[..], 0) == Rounds(s, block, i)
      decreases 64 - i
    {
      Mix(S, wv, i, block, s);
      if i == 48 { break; }
      ScheduleGroup(wv, i, block);
      i := i + 16;
    }
  }

  /** SHA256_Transform: the rotating variables and the schedule computed group by group give
      the standard's hash value, whatever the state and the block. */
  method Transform(state: array<Word>, block: seq<Byte>)
    requires state.Length == 8 && |block| == 64
    modifies state
    ensures View(state[..], 0) == Compress(old(View(state[..], 0)), block)
  {
    hide W, Rounds, Plus;
    var S := Scramble(state, block);
    ghost var mixed := S[..];
    for n := 0 to 8
      invariant forall k :: 0 <= k < n ==> state[k] == Plus(old(state[k]), S[k])
      invariant forall k :: n <= k < 8 ==> state[k] == old(state[k])
      invariant S[..] == mixed
    {
      state[n] := Plus(state[n], S[n]);
    }
  }

  lemma NoRounds(s: Eight, m: seq<Byte>)
    requires |m| == 64
    ensures Rounds(s, m, 0) == s
  {
  }
}
