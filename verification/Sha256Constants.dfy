/** Where the constants of SHA-256 come from (sections 4.2.2 and 5.3.3 of FIPS 180-4): the first 32 bits
    of the fractional parts of roots of primes. */
module Sha256Constants {
  import opened Sha256
  import Stream = Sha256Stream

  /** The first 64 primes, in rows of eight */
  const PRIMES: seq<seq<nat>> := [
    [2, 3, 5, 7, 11, 13, 17, 19],
    [23, 29, 31, 37, 41, 43, 47, 53],
    [59, 61, 67, 71, 73, 79, 83, 89],
    [97, 101, 103, 107, 109, 113, 127, 131],
    [137, 139, 149, 151, 157, 163, 167, 173],
    [179, 181, 191, 193, 197, 199, 211, 223],
    [227, 229, 233, 239, 241, 251, 257, 263],
    [269, 271, 277, 281, 283, 293, 307, 311]]

  function Prime(t: nat): nat
    requires t < 64
  {
    PRIMES[t / 8][t % 8]
  }

  function Number(w: Word): nat { w as int }

  function Square(x: nat): nat { x * x }

  function Cube(x: nat): nat { x * x * x }

  /** With 32 binary places, a whole number c and this fraction make up the square root of p,
      rounded down. */
  ghost predicate IsSquareRoot(p: nat, fraction: nat) {
    exists c: nat :: SquareRootIs(p, c, fraction)
  }

  predicate SquareRootIs(p: nat, c: nat, fraction: nat) {
    && fraction < 0x1_0000_0000
    && Square(c * 0x1_0000_0000 + fraction) <= p * 0x1_0000_0000_0000_0000
    && p * 0x1_0000_0000_0000_0000 < Square(c * 0x1_0000_0000 + fraction + 1)
  }

  /** The same for the cube root. */
  ghost predicate IsCubeRoot(p: nat, fraction: nat) {
    exists c: nat :: CubeRootIs(p, c, fraction)
  }

  predicate CubeRootIs(p: nat, c: nat, fraction: nat) {
    && fraction < 0x1_0000_0000
    && Cube(c * 0x1_0000_0000 + fraction) <= p * 0x1_0000_0000_0000_0000_0000_0000
    && p * 0x1_0000_0000_0000_0000_0000_0000 < Cube(c * 0x1_0000_0000 + fraction + 1)
  }

  lemma HasCubeRoot(p: nat, c: nat, w: Word)
    requires CubeRootIs(p, c, Number(w))
    ensures IsCubeRoot(p, Number(w))
  {
  }

  lemma CubeRoots0()
    ensures forall t :: 0 <= t < 4 ==> IsCubeRoot(Prime(t), Number(K(t)))
  {
    assert K(0) == 0x428a2f98 && Prime(0) == 2;
    assert K(1) == 0x71374491 && Prime(1) == 3;
    assert K(2) == 0xb5c0fbcf && Prime(2) == 5;
    assert K(3) == 0xe9b5dba5 && Prime(3) == 7;
    hide K, Prime, IsCubeRoot;
    HasCubeRoot(2, 1, 0x428a2f98);
    HasCubeRoot(3, 1, 0x71374491);
    HasCubeRoot(5, 1, 0xb5c0fbcf);
    HasCubeRoot(7, 1, 0xe9b5dba5);
  }

  lemma CubeRoots1()
    ensures forall t :: 4 <= t < 8 ==> IsCubeRoot(Prime(t), Number(K(t)))
  {
    assert K(4) == 0x3956c25b && Prime(4) == 11;
    assert K(5) == 0x59f111f1 && Prime(5) == 13;
    assert K(6) == 0x923f82a4 && Prime(6) == 17;
    assert K(7) == 0xab1c5ed5 && Prime(7) == 19;
    hide K, Prime, IsCubeRoot;
    HasCubeRoot(11, 2, 0x3956c25b);
    HasCubeRoot(13, 2, 0x59f111f1);
    HasCubeRoot(17, 2, 0x923f82a4);
    HasCubeRoot(19, 2, 0xab1c5ed5);
  }

  lemma CubeRoots2()
    ensures forall t :: 8 <= t < 12 ==> IsCubeRoot(Prime(t), Number(K(t)))
  {
    assert K(8) == 0xd807aa98 && Prime(8) == 23;
    assert K(9) == 0x12835b01 && Prime(9) == 29;
    assert K(10) == 0x243185be && Prime(10) == 31;
    assert K(11) == 0x550c7dc3 && Prime(11) == 37;
    hide K, Prime, IsCubeRoot;
    HasCubeRoot(23, 2, 0xd807aa98);
    HasCubeRoot(29, 3, 0x12835b01);
    HasCubeRoot(31, 3, 0x243185be);
    HasCubeRoot(37, 3, 0x550c7dc3);
  }

  lemma CubeRoots3()
    ensures forall t :: 12 <= t < 16 ==> IsCubeRoot(Prime(t), Number(K(t)))
  {
    assert K(12) == 0x72be5d74 && Prime(12) == 41;
    assert K(13) == 0x80deb1fe && Prime(13) == 43;
    assert K(14) == 0x9bdc06a7 && Prime(14) == 47;
    assert K(15) == 0xc19bf174 && Prime(15) == 53;
    hide K, Prime, IsCubeRoot;
    HasCubeRoot(41, 3, 0x72be5d74);
    HasCubeRoot(43, 3, 0x80deb1fe);
    HasCubeRoot(47, 3, 0x9bdc06a7);
    HasCubeRoot(53, 3, 0xc19bf174);
  }

  lemma CubeRoots4()
    ensures forall t :: 16 <= t < 20 ==> IsCubeRoot(Prime(t), Number(K(t)))
  {
    assert K(16) == 0xe49b69c1 && Prime(16) == 59;
    assert K(17) == 0xefbe4786 && Prime(17) == 61;
    assert K(18) == 0x0fc19dc6 && Prime(18) == 67;
    assert K(19) == 0x240ca1cc && Prime(19) == 71;
    hide K, Prime, IsCubeRoot;
    HasCubeRoot(59, 3, 0xe49b69c1);
    HasCubeRoot(61, 3, 0xefbe4786);
    HasCubeRoot(67, 4, 0x0fc19dc6);
    HasCubeRoot(71, 4, 0x240ca1cc);
  }

  lemma CubeRoots5()
    ensures forall t :: 20 <= t < 24 ==> IsCubeRoot(Prime(t), Number(K(t)))
  {
    assert K(20) == 0x2de92c6f && Prime(20) == 73;
    assert K(21) == 0x4a7484aa && Prime(21) == 79;
    assert K(22) == 0x5cb0a9dc && Prime(22) == 83;
    assert K(23) == 0x76f988da && Prime(23) == 89;
    hide K, Prime, IsCubeRoot;
    HasCubeRoot(73, 4, 0x2de92c6f);
    HasCubeRoot(79, 4, 0x4a7484aa);
    HasCubeRoot(83, 4, 0x5cb0a9dc);
    HasCubeRoot(89, 4, 0x76f988da);
  }

  lemma CubeRoots6()
    ensures forall t :: 24 <= t < 28 ==> IsCubeRoot(Prime(t), Number(K(t)))
  {
    assert K(24) == 0x983e5152 && Prime(24) == 97;
    assert K(25) == 0xa831c66d && Prime(25) == 101;
    assert K(26) == 0xb00327c8 && Prime(26) == 103;
    assert K(27) == 0xbf597fc7 && Prime(27) == 107;
    hide K, Prime, IsCubeRoot;
    HasCubeRoot(97, 4, 0x983e5152);
    HasCubeRoot(101, 4, 0xa831c66d);
    HasCubeRoot(103, 4, 0xb00327c8);
    HasCubeRoot(107, 4, 0xbf597fc7);
  }

  lemma CubeRoots7()
    ensures forall t :: 28 <= t < 32 ==> IsCubeRoot(Prime(t), Number(K(t)))
  {
    assert K(28) == 0xc6e00bf3 && Prime(28) == 109;
    assert K(29) == 0xd5a79147 && Prime(29) == 113;
    assert K(30) == 0x06ca6351 && Prime(30) == 127;
    assert K(31) == 0x14292967 && Prime(31) == 131;
    hide K, Prime, IsCubeRoot;
    HasCubeRoot(109, 4, 0xc6e00bf3);
    HasCubeRoot(113, 4, 0xd5a79147);
    HasCubeRoot(127, 5, 0x06ca6351);
    HasCubeRoot(131, 5, 0x14292967);
  }

  lemma CubeRoots8()
    ensures forall t :: 32 <= t < 36 ==> IsCubeRoot(Prime(t), Number(K(t)))
  {
    assert K(32) == 0x27b70a85 && Prime(32) == 137;
    assert K(33) == 0x2e1b2138 && Prime(33) == 139;
    assert K(34) == 0x4d2c6dfc && Prime(34) == 149;
    assert K(35) == 0x53380d13 && Prime(35) == 151;
    hide K, Prime, IsCubeRoot;
    HasCubeRoot(137, 5, 0x27b70a85);
    HasCubeRoot(139, 5, 0x2e1b2138);
    HasCubeRoot(149, 5, 0x4d2c6dfc);
    HasCubeRoot(151, 5, 0x53380d13);
  }

  lemma CubeRoots9()
    ensures forall t :: 36 <= t < 40 ==> IsCubeRoot(Prime(t), Number(K(t)))
  {
    assert K(36) == 0x650a7354 && Prime(36) == 157;
    assert K(37) == 0x766a0abb && Prime(37) == 163;
    assert K(38) == 0x81c2c92e && Prime(38) == 167;
    assert K(39) == 0x92722c85 && Prime(39) == 173;
    hide K, Prime, IsCubeRoot;
    HasCubeRoot(157, 5, 0x650a7354);
    HasCubeRoot(163, 5, 0x766a0abb);
    HasCubeRoot(167, 5, 0x81c2c92e);
    HasCubeRoot(173, 5, 0x92722c85);
  }

  lemma CubeRoots10()
    ensures forall t :: 40 <= t < 44 ==> IsCubeRoot(Prime(t), Number(K(t)))
  {
    assert K(40) == 0xa2bfe8a1 && Prime(40) == 179;
    assert K(41) == 0xa81a664b && Prime(41) == 181;
    assert K(42) == 0xc24b8b70 && Prime(42) == 191;
    assert K(43) == 0xc76c51a3 && Prime(43) == 193;
    hide K, Prime, IsCubeRoot;
    HasCubeRoot(179, 5, 0xa2bfe8a1);
    HasCubeRoot(181, 5, 0xa81a664b);
    HasCubeRoot(191, 5, 0xc24b8b70);
    HasCubeRoot(193, 5, 0xc76c51a3);
  }

  lemma CubeRoots11()
    ensures forall t :: 44 <= t < 48 ==> IsCubeRoot(Prime(t), Number(K(t)))
  {
    assert K(44) == 0xd192e819 && Prime(44) == 197;
    assert K(45) == 0xd6990624 && Prime(45) == 199;
    assert K(46) == 0xf40e3585 && Prime(46) == 211;
    assert K(47) == 0x106aa070 && Prime(47) == 223;
    hide K, Prime, IsCubeRoot;
    HasCubeRoot(197, 5, 0xd192e819);
    HasCubeRoot(199, 5, 0xd6990624);
    HasCubeRoot(211, 5, 0xf40e3585);
    HasCubeRoot(223, 6, 0x106aa070);
  }

  lemma CubeRoots12()
    ensures forall t :: 48 <= t < 52 ==> IsCubeRoot(Prime(t), Number(K(t)))
  {
    assert K(48) == 0x19a4c116 && Prime(48) == 227;
    assert K(49) == 0x1e376c08 && Prime(49) == 229;
    assert K(50) == 0x2748774c && Prime(50) == 233;
    assert K(51) == 0x34b0bcb5 && Prime(51) == 239;
    hide K, Prime, IsCubeRoot;
    HasCubeRoot(227, 6, 0x19a4c116);
    HasCubeRoot(229, 6, 0x1e376c08);
    HasCubeRoot(233, 6, 0x2748774c);
    HasCubeRoot(239, 6, 0x34b0bcb5);
  }

  lemma CubeRoots13()
    ensures forall t :: 52 <= t < 56 ==> IsCubeRoot(Prime(t), Number(K(t)))
  {
    assert K(52) == 0x391c0cb3 && Prime(52) == 241;
    assert K(53) == 0x4ed8aa4a && Prime(53) == 251;
    assert K(54) == 0x5b9cca4f && Prime(54) == 257;
    assert K(55) == 0x682e6ff3 && Prime(55) == 263;
    hide K, Prime, IsCubeRoot;
    HasCubeRoot(241, 6, 0x391c0cb3);
    HasCubeRoot(251, 6, 0x4ed8aa4a);
    HasCubeRoot(257, 6, 0x5b9cca4f);
    HasCubeRoot(263, 6, 0x682e6ff3);
  }

  lemma CubeRoots14()
    ensures forall t :: 56 <= t < 60 ==> IsCubeRoot(Prime(t), Number(K(t)))
  {
    assert K(56) == 0x748f82ee && Prime(56) == 269;
    assert K(57) == 0x78a5636f && Prime(57) == 271;
    assert K(58) == 0x84c87814 && Prime(58) == 277;
    assert K(59) == 0x8cc70208 && Prime(59) == 281;
    hide K, Prime, IsCubeRoot;
    HasCubeRoot(269, 6, 0x748f82ee);
    HasCubeRoot(271, 6, 0x78a5636f);
    HasCubeRoot(277, 6, 0x84c87814);
    HasCubeRoot(281, 6, 0x8cc70208);
  }

  lemma CubeRoots15()
    ensures forall t :: 60 <= t < 64 ==> IsCubeRoot(Prime(t), Number(K(t)))
  {
    assert K(60) == 0x90befffa && Prime(60) == 283;
    assert K(61) == 0xa4506ceb && Prime(61) == 293;
    assert K(62) == 0xbef9a3f7 && Prime(62) == 307;
    assert K(63) == 0xc67178f2 && Prime(63) == 311;
    hide K, Prime, IsCubeRoot;
    HasCubeRoot(283, 6, 0x90befffa);
    HasCubeRoot(293, 6, 0xa4506ceb);
    HasCubeRoot(307, 6, 0xbef9a3f7);
    HasCubeRoot(311, 6, 0xc67178f2);
  }

  /** The constants of the rounds: the cube roots of the first 64 primes. */
  lemma RoundConstantsAreCubeRoots(t: nat)
    requires t < 64
    ensures IsCubeRoot(Prime(t), Number(K(t)))
  {
    hide IsCubeRoot, K, Number, Prime;
    CubeRoots0();
    CubeRoots1();
    CubeRoots2();
    CubeRoots3();
    CubeRoots4();
    CubeRoots5();
    CubeRoots6();
    CubeRoots7();
    CubeRoots8();
    CubeRoots9();
    CubeRoots10();
    CubeRoots11();
    CubeRoots12();
    CubeRoots13();
    CubeRoots14();
    CubeRoots15();
  }

  lemma HasSquareRoot(p: nat, c: nat, w: Word)
    requires SquareRootIs(p, c, Number(w))
    ensures IsSquareRoot(p, Number(w))
  {
  }

  /** The hash value before the first block: the square roots of the first eight. */
  lemma InitialIsSquareRoots()
    ensures var s := Stream.INITIAL;
            && IsSquareRoot(2, Number(s.a)) && IsSquareRoot(3, Number(s.b))
            && IsSquareRoot(5, Number(s.c)) && IsSquareRoot(7, Number(s.d))
            && IsSquareRoot(11, Number(s.e)) && IsSquareRoot(13, Number(s.f))
            && IsSquareRoot(17, Number(s.g)) && IsSquareRoot(19, Number(s.h))
  {
    hide IsSquareRoot;
    HasSquareRoot(2, 1, 0x6A09E667);
    HasSquareRoot(3, 1, 0xBB67AE85);
    HasSquareRoot(5, 2, 0x3C6EF372);
    HasSquareRoot(7, 2, 0xA54FF53A);
    HasSquareRoot(11, 3, 0x510E527F);
    HasSquareRoot(13, 3, 0x9B05688C);
    HasSquareRoot(17, 4, 0x1F83D9AB);
    HasSquareRoot(19, 4, 0x5BE0CD19);
  }
}
