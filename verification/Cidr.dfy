/** Addresses with a prefix length (luci/libs/luci-lib-ip/src/ip.c:646-673, 834-973, 1017-1049):
    big-endian byte arithmetic, masks, containment. */
module Cidr {
  import opened Bytes

  // ------------------------------------------------------------- numbers

  function Pow2(n: nat): (p: nat)
    ensures p > 0
  {
    if n == 0 then 1 else 2 * Pow2(n - 1)
  }

  function Pow256(n: nat): (p: nat)
    ensures p > 0
  {
    if n == 0 then 1 else 256 * Pow256(n - 1)
  }

  /** The number that big-endian bytes stand for. */
  function Val(s: seq<Byte>): (v: nat)
  {
    if s == [] then 0 else (s[0] as nat) * Pow256(|s| - 1) + Val(s[1..])
  }

  lemma MulLe(x: nat, y: nat, p: nat)
    requires x <= y
    ensures x * p <= y * p
  {
  }

  /** A number has one leading digit and one remainder. */
  lemma Leading(x: nat, y: nat, p: nat, u: nat, v: nat)
    requires u < p && v < p && x * p + u == y * p + v
    ensures x == y && u == v
  {
    if x < y { MulLe(x + 1, y, p); }
    if y < x { MulLe(y + 1, x, p); }
  }

  lemma {:induction false} ValBound(s: seq<Byte>)
    ensures Val(s) < Pow256(|s|)
  {
    if s != [] {
      ValBound(s[1..]);
      MulLe(s[0], 255, Pow256(|s| - 1));
    }
  }

  lemma {:induction false} ValInjective(a: seq<Byte>, b: seq<Byte>)
    requires |a| == |b| && Val(a) == Val(b)
    ensures a == b
  {
    if a != [] {
      ValBound(a[1..]);
      ValBound(b[1..]);
      Leading(a[0], b[0], Pow256(|a| - 1), Val(a[1..]), Val(b[1..]));
      ValInjective(a[1..], b[1..]);
      assert a == [a[0]] + a[1..] && b == [b[0]] + b[1..];
    }
  }

  lemma MulAssoc(x: int, y: int, z: int)
    ensures x * (y * z) == (x * y) * z
  {
  }

  lemma {:induction false} PowAdds(a: nat, b: nat)
    ensures Pow2(a + b) == Pow2(a) * Pow2(b)
  {
    if a > 0 {
      PowAdds(a - 1, b);
      MulAssoc(2, Pow2(a - 1), Pow2(b));
    }
  }

  lemma {:induction false} PowBytes(n: nat)
    ensures Pow2(8 * n) == Pow256(n)
  {
    if n > 0 {
      PowBytes(n - 1);
      assert Pow2(8 * n) == 2 * Pow2(8 * n - 1) == 4 * Pow2(8 * n - 2) == 8 * Pow2(8 * n - 3);
      assert 8 * Pow2(8 * n - 3) == 16 * Pow2(8 * n - 4) == 32 * Pow2(8 * n - 5) == 64 * Pow2(8 * n - 6);
      assert 64 * Pow2(8 * n - 6) == 128 * Pow2(8 * n - 7) == 256 * Pow2(8 * (n - 1));
    }
  }

  // ------------------------------------------------- adding and subtracting

  /** Saturating arithmetic below `top`, and whether it was exact. */
  function AddSub(a: nat, b: nat, add: bool, top: nat): (r: (nat, bool))
    requires top > 0
  {
    if add then (if a + b < top then (a + b, true) else (top - 1, false))
    else if a >= b then (a - b, true) else (0, false)
  }

  /** An addition that does not overflow is undone by subtracting the same operand. */
  lemma AddThenSub(a: nat, b: nat, top: nat)
    requires a < top && b < top
    ensures var s := AddSub(a, b, true, top); s.1 <==> AddSub(s.0, b, false, top) == (a, true)
  {
  }

  lemma Scaled(x: int, y: int, p: int)
    requires x == y
    ensures x * p == y * p
  {
  }

  /** One byte of an addition. */
  lemma AddStep(a: nat, b: nat, c: nat, p: nat, va: nat, vb: nat, vr: nat)
    requires vr + c * p == va + vb
    ensures ((a + b + c) % 256 * p + vr) + (a + b + c) / 256 * (256 * p) == (a * p + va) + (b * p + vb)
  {
    var t := a + b + c;
    assert t == 256 * (t / 256) + t % 256;
    Scaled(t, 256 * (t / 256) + t % 256, p);
    assert (256 * (t / 256) + t % 256) * p == t / 256 * (256 * p) + t % 256 * p;
    assert t * p == a * p + b * p + c * p;
  }

  /** One byte of a subtraction. */
  lemma SubStep(a: nat, b: nat, c: nat, p: nat, va: nat, vb: nat, vr: nat)
    requires a < 256 && b < 256 && c <= 1 && vr == va - vb + c * p
    ensures var c' := if a < b + c then 1 else 0;
            (a - b - c) % 256 * p + vr == (a * p + va) - (b * p + vb) + c' * (256 * p)
  {
    var c' := if a < b + c then 1 else 0;
    assert (a - b - c) % 256 == a - b - c + 256 * c';
    Scaled((a - b - c) % 256, a - b - c + 256 * c', p);
    assert (a - b - c + 256 * c') * p == a * p - b * p - c * p + c' * (256 * p);
  }

  lemma ValStep(s: seq<Byte>, k: nat)
    requires k < |s|
    ensures Val(s[k..]) == (s[k] as nat) * Pow256(|s| - k - 1) + Val(s[k + 1..])
  {
    assert s[k..][1..] == s[k + 1..];
  }

  /** The loop over the bytes, last one first: the carry is what does not fit. */
  method CarryBytes(a: array<Byte>, b: array<Byte>, r: array<Byte>, add: bool) returns (carry: nat)
    requires a.Length == b.Length == r.Length && r != a && r != b
    modifies r
    ensures carry <= 1
    ensures Val(r[..]) == if add then Val(a[..]) + Val(b[..]) - carry * Pow256(a.Length)
                          else Val(a[..]) - Val(b[..]) + carry * Pow256(a.Length)
  {
    hide Val, Pow256;
    var n := a.Length;
    carry := 0;
    NoBytes();
    assert a[n..] == b[n..] == r[n..] == [];
    for i := 0 to n
      invariant carry <= 1
      invariant Val(r[n - i..]) == if add then Val(a[n - i..]) + Val(b[n - i..]) - carry * Pow256(i)
                                   else Val(a[n - i..]) - Val(b[n - i..]) + carry * Pow256(i)
    {
      var k := n - i - 1;
      ghost var rest := r[k + 1..];
      var z, c := StepByte(a[k], b[k], carry, add, Pow256(i), Val(a[k + 1..]), Val(b[k + 1..]), Val(rest));
      r[k] := z;
      carry := c;
      assert r[k + 1..] == rest;
      ValStep(a[..], k);
      ValStep(b[..], k);
      ValStep(r[..], k);
      NextPower(i);
      assert a[..][k..] == a[k..] && a[..][k + 1..] == a[k + 1..];
      assert b[..][k..] == b[k..] && b[..][k + 1..] == b[k + 1..];
      assert r[..][k..] == r[k..] && r[..][k + 1..] == r[k + 1..];
    }
    assert a[0..] == a[..] && b[0..] == b[..] && r[0..] == r[..];
  }

  lemma NoBytes()
    ensures Val([]) == 0 && Pow256(0) == 1
  {
  }

  lemma NextPower(n: nat)
    ensures Pow256(n + 1) == 256 * Pow256(n)
  {
  }

  /** The body of that loop */
  method StepByte(x: Byte, y: Byte, carry: nat, add: bool, ghost p: nat, ghost va: nat, ghost vb: nat, ghost vr: nat)
    returns (z: Byte, c: nat)
    requires carry <= 1 && vr == if add then va + vb - carry * p else va - vb + carry * p
    ensures c <= 1
    ensures (z as nat) * p + vr
         == if add then (x * p + va) + (y * p + vb) - c * (256 * p) else (x * p + va) - (y * p + vb) + c * (256 * p)
  {
    if add {
      AddStep(x, y, carry, p, va, vb, vr);
      z, c := (x + y + carry) % 256, (x + y + carry) / 256;
    } else {
      SubStep(x, y, carry, p, va, vb, vr);
      z, c := (x - y - carry) % 256, if x < y + carry then 1 else 0;
    }
  }

  /** memset of an address */
  method Fill(r: array<Byte>, x: Byte)
    modifies r
    ensures forall i :: 0 <= i < r.Length ==> r[i] == x
  {
    for i := 0 to r.Length
      invariant forall k :: 0 <= k < i ==> r[k] == x
    {
      r[i] := x;
    }
  }

  lemma {:induction false} ValFilled(s: seq<Byte>, x: Byte)
    requires x == 0 || x == 255
    requires forall i :: 0 <= i < |s| ==> s[i] == x
    ensures Val(s) == if x == 0 then 0 else Pow256(|s|) - 1
  {
    if s != [] { ValFilled(s[1..], x); }
  }

  /** The byte branch of _cidr_add_sub: saturating big-endian arithmetic, whatever the number
      of bytes. */
  method AddSubBytes(a: array<Byte>, b: array<Byte>, r: array<Byte>, add: bool) returns (ok: bool)
    requires a.Length == b.Length == r.Length && r != a && r != b
    modifies r
    ensures (Val(r[..]), ok) == AddSub(Val(a[..]), Val(b[..]), add, Pow256(a.Length))
  {
    hide Val, Pow256;
    var carry := CarryBytes(a, b, r, add);
    ValBound(a[..]);
    ValBound(b[..]);
    ValBound(r[..]);
    ok := carry == 0;
    if carry != 0 {
      Fill(r, if add then 255 else 0);
      ValFilled(r[..], if add then 255 else 0);
    }
  }

  // ---------------------------------------------------------------- words

  /** The four bytes of a word in network order. */
  function WordBytes(v: nat): (b: seq<Byte>)
    requires v < 0x1_0000_0000
    ensures |b| == 4
  {
    [v / 0x100_0000, v / 0x1_0000 % 256, v / 0x100 % 256, v % 256]
  }

  lemma WordRoundTrip(v: nat)
    requires v < 0x1_0000_0000
    ensures Val(WordBytes(v)) == v
  {
    var b := WordBytes(v);
    ValFour(b);
    assert v / 0x1_0000 == v / 0x100_0000 * 256 + v / 0x1_0000 % 256;
    assert v / 0x100 == v / 0x1_0000 * 256 + v / 0x100 % 256;
    assert v == v / 0x100 * 256 + v % 256;
  }

  lemma ValFour(b: seq<Byte>)
    requires |b| == 4
    ensures Val(b) == (b[0] as nat) * 0x100_0000 + (b[1] as nat) * 0x1_0000 + (b[2] as nat) * 0x100 + (b[3] as nat)
    ensures Pow256(4) == 0x1_0000_0000
  {
    assert Pow256(1) == 256 && Pow256(2) == 0x1_0000 && Pow256(3) == 0x100_0000;
    assert b[1..][1..] == b[2..] && b[2..][1..] == b[3..] && b[3..][1..] == [];
    assert Val(b[3..]) == (b[3] as nat);
    assert Val(b[2..]) == (b[2] as nat) * 256 + Val(b[3..]);
    assert Val(b[1..]) == (b[1] as nat) * 0x1_0000 + Val(b[2..]);
  }

  /** ntohl */
  method Ntohl(a: array<Byte>) returns (v: nat)
    requires a.Length == 4
    ensures v == Val(a[..]) < 0x1_0000_0000
  {
    v := (a[0] as nat) * 0x100_0000 + (a[1] as nat) * 0x1_0000 + (a[2] as nat) * 0x100 + (a[3] as nat);
    ValFour(a[..]);
  }

  /** htonl */
  method Htonl(r: array<Byte>, v: nat)
    requires r.Length == 4 && v < 0x1_0000_0000
    modifies r
    ensures Val(r[..]) == v
  {
    var b := WordBytes(v);
    r[0], r[1], r[2], r[3] := b[0], b[1], b[2], b[3];
    assert r[..] == b;
    WordRoundTrip(v);
  }

  /** The IPv4 branch of _cidr_add_sub, in 32-bit words: the same arithmetic. */
  method AddSubWord(a: array<Byte>, b: array<Byte>, r: array<Byte>, add: bool) returns (ok: bool)
    requires a.Length == b.Length == r.Length == 4 && r != a && r != b
    modifies r
    ensures (Val(r[..]), ok) == AddSub(Val(a[..]), Val(b[..]), add, Pow256(4))
  {
    ValFour(a[..]);
    hide Val, Pow256;
    var x := Ntohl(a);
    var y := Ntohl(b);
    if (add && 0xFFFF_FFFF - x < y) || (!add && x < y) {
      Htonl(r, if add then 0xFFFF_FFFF else 0);
      ok := false;
    } else {
      Htonl(r, if add then x + y else x - y);
      ok := true;
    }
  }

  // ---------------------------------------------------------------- masks

  /** Bitwise and. */
  function BitAnd(x: nat, y: nat): nat {
    if x == 0 || y == 0 then 0 else 2 * BitAnd(x / 2, y / 2) + (if x % 2 == 1 && y % 2 == 1 then 1 else 0)
  }

  /** Bitwise or. */
  function BitOr(x: nat, y: nat): nat {
    if x == 0 then y else if y == 0 then x
    else 2 * BitOr(x / 2, y / 2) + (if x % 2 == 1 || y % 2 == 1 then 1 else 0)
  }

  lemma {:induction false} PowMono(a: nat, b: nat)
    requires a <= b
    ensures Pow2(a) <= Pow2(b)
  {
    if a < b { PowMono(a, b - 1); }
  }

  /** Halving a number and cutting off one bit less. */
  lemma HalfMod(x: nat, k: nat)
    requires k > 0
    ensures x % Pow2(k) == 2 * (x / 2 % Pow2(k - 1)) + x % 2
  {
    var p := Pow2(k - 1);
    var q := x / 2 / p;
    assert x / 2 == p * q + x / 2 % p;
    assert x == Pow2(k) * q + (2 * (x / 2 % p) + x % 2) by { MulAssoc(2, p, q); }
    ModUnique(x, Pow2(k), q, 2 * (x / 2 % p) + x % 2);
  }

  lemma ModUnique(x: nat, d: nat, q: nat, r: nat)
    requires d > 0 && x == d * q + r && r < d
    ensures x / d == q && x % d == r
  {
    var k := x / d;
    assert x == d * k + x % d;
    Leading(q, k, d, r, x % d);
  }

  /** Masking with w - k ones followed by k zeros clears the last k bits. */
  lemma {:induction false} AndMask(x: nat, k: nat, w: nat)
    requires k <= w && x < Pow2(w)
    ensures Pow2(k) <= Pow2(w) && BitAnd(x, Pow2(w) - Pow2(k)) == x - x % Pow2(k)
    decreases w
  {
    PowMono(k, w);
    if k == 0 {
      AndOnes(x, w);
    } else {
      AndMask(x / 2, k - 1, w - 1);
      HalfMod(x, k);
      var p, q := Pow2(k - 1), Pow2(w - 1);
      assert Pow2(k) == 2 * p && Pow2(w) == 2 * q;
      hide Pow2;
      assert (2 * q - 2 * p) / 2 == q - p && (2 * q - 2 * p) % 2 == 0;
      if q == p { ModUnique(x, 2 * p, 0, x); }
      if x == 0 { ModUnique(x, 2 * p, 0, x); }
    }
  }

  lemma {:induction false} AndOnes(x: nat, w: nat)
    requires x < Pow2(w)
    ensures BitAnd(x, Pow2(w) - 1) == x
  {
    if w > 0 { AndOnes(x / 2, w - 1); }
  }

  /** Setting the last k bits. */
  lemma {:induction false} OrMask(x: nat, k: nat)
    ensures BitOr(x, Pow2(k) - 1) == x - x % Pow2(k) + (Pow2(k) - 1)
  {
    if k > 0 {
      var p := Pow2(k - 1);
      assert Pow2(k) == 2 * p;
      OrMask(x / 2, k - 1);
      HalfMod(x, k);
      hide Pow2;
      assert (2 * p - 1) / 2 == p - 1 && (2 * p - 1) % 2 == 1;
      if x == 0 { assert 0 % (2 * p) == 0; }
    }
  }

  /** Bit k of a number, counted from the last one. */
  predicate Bit(x: nat, k: nat) { if k == 0 then x % 2 == 1 else Bit(x / 2, k - 1) }

  lemma {:induction false} NoBits(k: nat)
    ensures !Bit(0, k)
  {
    if k > 0 { NoBits(k - 1); }
  }

  /** Both operations work bit by bit. */
  lemma {:induction false} BitByBit(x: nat, y: nat, k: nat)
    ensures Bit(BitAnd(x, y), k) <==> Bit(x, k) && Bit(y, k)
    ensures Bit(BitOr(x, y), k) <==> Bit(x, k) || Bit(y, k)
  {
    if x == 0 || y == 0 {
      NoBits(k);
    } else if k > 0 {
      BitByBit(x / 2, y / 2, k - 1);
    }
  }

  // ----------------------------------------------------- masks on addresses

  /** An address of w bits with all but its first `bits` bits cleared, or set. */
  function Masked(v: nat, bits: int, inv: bool, w: nat): int {
    if bits > w then v
    else
      var k := if bits <= 0 then w else w - bits;
      v - v % Pow2(k) + if inv then Pow2(k) - 1 else 0
  }

  /** The first `bits` bits are kept, and the others are cleared or set; with more bits than
      there are nothing changes. */
  lemma MaskedBits(v: nat, bits: int, inv: bool, w: nat, i: nat)
    ensures Masked(v, bits, inv, w) >= 0
    ensures Bit(Masked(v, bits, inv, w), i) <==> if i < w && i + bits < w then inv else Bit(v, i)
  {
    if bits <= w { LastBits(v, if bits <= 0 then w else w - bits, inv, i); }
  }

  lemma {:induction false} LastBits(v: nat, k: nat, inv: bool, i: nat)
    ensures var r := v - v % Pow2(k) + if inv then Pow2(k) - 1 else 0;
            r >= 0 && (Bit(r, i) <==> if i < k then inv else Bit(v, i))
    decreases k
  {
    if k > 0 {
      HalfMod(v, k);
      var p := Pow2(k - 1);
      assert Pow2(k) == 2 * p;
      var half := v / 2 - v / 2 % p + if inv then p - 1 else 0;
      assert v - v % Pow2(k) + (if inv then Pow2(k) - 1 else 0) == 2 * half + if inv then 1 else 0;
      LastBits(v / 2, k - 1, inv, if i > 0 then i - 1 else 0);
    }
  }

  /** `&= 0xFF << (8 - b)`, or `|= ~(0xFF << (8 - b))` */
  function MaskByte(x: Byte, b: nat, inv: bool): (r: Byte)
    requires b <= 8
    ensures r == x - x % Pow2(8 - b) + if inv then Pow2(8 - b) - 1 else 0
  {
    EightBits();
    AndMask(x, 8 - b, 8);
    OrMask(x, 8 - b);
    ByteRange(x, 8 - b);
    if inv then BitOr(x, Pow2(8 - b) - 1) else BitAnd(x, Pow2(8) - Pow2(8 - b))
  }

  lemma EightBits()
    ensures Pow2(8) == 256 && Pow2(0) == 1
  {
    assert Pow2(2) == 4 && Pow2(4) == 16 && Pow2(6) == 64;
  }

  /** The block of d numbers around x < d * top stays below d * top. */
  lemma Block(x: nat, d: nat, top: nat)
    requires d > 0 && x < top * d
    ensures 0 <= x - x % d && x - x % d + d <= top * d
  {
    var q := x / d;
    assert x == q * d + x % d;
    if q >= top { MulLe(top, q, d); } else { MulLe(q + 1, top, d); }
  }

  /** The block of 2^k numbers around x < 2^w stays below 2^w. */
  lemma BlockBelow(x: nat, k: nat, w: nat)
    requires k <= w && x < Pow2(w)
    ensures 0 <= x - x % Pow2(k) && x - x % Pow2(k) + (Pow2(k) - 1) < Pow2(w)
  {
    PowAdds(w - k, k);
    Block(x, Pow2(k), Pow2(w - k));
  }

  lemma ByteRange(x: Byte, k: nat)
    requires k <= 8
    ensures 0 <= x - x % Pow2(k) <= x - x % Pow2(k) + (Pow2(k) - 1) < 256
  {
    EightBits();
    BlockBelow(x, k, 8);
  }

  /** The loop of _apply_mask over the bytes, as a function. */
  function MaskBytes(s: seq<Byte>, bits: nat, inv: bool): (r: seq<Byte>)
    ensures |r| == |s|
  {
    if s == [] then []
    else
      var b := if bits > 8 then 8 else bits;
      [MaskByte(s[0], b, inv)] + MaskBytes(s[1..], bits - b, inv)
  }

  lemma ModOfSum(x: nat, p: nat, d: nat, m: nat, v: nat)
    requires d > 0 && p == d * m
    ensures (x * p + v) % d == v % d
  {
    MulAssoc(d, m, x);
    assert x * p == d * (m * x);
    assert v == d * (v / d) + v % d;
    assert x * p + v == d * (m * x + v / d) + v % d;
    ModUnique(x * p + v, d, m * x + v / d, v % d);
  }

  /** The remainder by m * p of a number with leading digit x over p. */
  lemma ModOfProduct(x: nat, p: nat, m: nat, v: nat)
    requires m > 0 && p > 0 && v < p
    ensures m * p > 0 && (x * p + v) % (m * p) == x % m * p + v
  {
    var q, r := x / m, x % m;
    assert x == m * q + r;
    Scaled(x, m * q + r, p);
    assert (m * q + r) * p == (m * p) * q + r * p by { MulAssoc(m, p, q); }
    MulLe(r + 1, m, p);
    assert m * p >= p by { MulLe(1, m, p); }
    ModUnique(x * p + v, m * p, q, r * p + v);
  }

  lemma MaskedHigh(x: nat, p: nat, v: nat, bits: nat, inv: bool, n: nat)
    requires p == Pow2(8 * n) && v < p && 8 <= bits <= 8 * n + 8
    ensures x * p + Masked(v, bits - 8, inv, 8 * n) == Masked(x * p + v, bits, inv, 8 * n + 8)
  {
    var k := 8 * n + 8 - bits;
    PowAdds(k, 8 * n - k);
    ModOfSum(x, p, Pow2(k), Pow2(8 * n - k), v);
  }

  lemma MaskedLow(x: nat, p: nat, v: nat, b: nat, inv: bool, n: nat)
    requires p == Pow2(8 * n) && v < p && b < 8
    ensures (x - x % Pow2(8 - b) + if inv then Pow2(8 - b) - 1 else 0) * p + Masked(v, 0, inv, 8 * n)
         == Masked(x * p + v, b, inv, 8 * n + 8)
  {
    var m, k := Pow2(8 - b), 8 * n + 8 - b;
    PowAdds(8 - b, 8 * n);
    ModOfProduct(x, p, m, v);
    ModUnique(v, p, 0, v);
    assert Masked(v, 0, inv, 8 * n) == if inv then p - 1 else 0;
    assert Masked(x * p + v, b, inv, 8 * n + 8) == x * p + v - (x % m * p + v) + if inv then m * p - 1 else 0;
    hide Masked, Pow2;
    LowAlgebra(x, x % m, p, m);
  }

  lemma LowAlgebra(x: nat, r: nat, p: nat, m: nat)
    ensures (x - r) * p == x * p - r * p
    ensures (x - r + (m - 1)) * p == x * p - r * p + m * p - p
  {
  }

  /** Masking byte by byte masks the number. */
  lemma {:induction false} MaskBytesMasks(s: seq<Byte>, bits: nat, inv: bool)
    requires bits <= 8 * |s|
    ensures Val(MaskBytes(s, bits, inv)) == Masked(Val(s), bits, inv, 8 * |s|)
  {
    hide Masked, MaskBytes, Pow2, Pow256, MaskByte, Val;
    if s == [] {
      NothingMasked(bits, inv);
    } else {
      var t := s[1..];
      var b := if bits > 8 then 8 else bits;
      MaskBytesMasks(t, bits - b, inv);
      PowBytes(|t|);
      ValBound(t);
      MaskBytesStep(s, bits, inv);
      if bits >= 8 {
        MaskedHigh(s[0], Pow256(|t|), Val(t), bits, inv, |t|);
      } else {
        MaskedLow(s[0], Pow256(|t|), Val(t), b, inv, |t|);
      }
    }
  }

  lemma NothingMasked(bits: nat, inv: bool)
    requires bits == 0
    ensures Val(MaskBytes([], bits, inv)) == Masked(Val([]), bits, inv, 0)
  {
    EightBits();
  }

  lemma MaskBytesStep(s: seq<Byte>, bits: nat, inv: bool)
    requires s != []
    ensures var b := if bits > 8 then 8 else bits;
            && Val(MaskBytes(s, bits, inv))
               == (MaskByte(s[0], b, inv) as nat) * Pow256(|s| - 1) + Val(MaskBytes(s[1..], bits - b, inv))
            && Val(s) == (s[0] as nat) * Pow256(|s| - 1) + Val(s[1..])
    ensures MaskByte(s[0], 8, inv) == s[0]
  {
    EightBits();
    var b := if bits > 8 then 8 else bits;
    assert MaskBytes(s, bits, inv)[1..] == MaskBytes(s[1..], bits - b, inv);
  }

  // ------------------------------------------------------------- the object

  datatype Family = Inet | Inet6 | Packet

  /** AF_BYTES */
  function Size(f: Family): nat { match f case Inet => 4 case Inet6 => 16 case Packet => 6 }

  /** The numbers with the same first bits as v: from Lo to Hi. */
  function Lo(v: nat, k: nat): int { v - v % Pow2(k) }

  function Hi(v: nat, k: nat): int { Lo(v, k) + Pow2(k) - 1 }

  /** These are exactly the numbers that agree with v before the last k bits. */
  lemma IntervalExactly(v: nat, k: nat, a: nat)
    ensures Lo(v, k) <= a <= Hi(v, k) <==> a / Pow2(k) == v / Pow2(k)
  {
    hide Pow2, Lo;
    Quotient(a, Pow2(k));
    LoIs(v, k);
    Between(v / Pow2(k), a / Pow2(k), Pow2(k), a % Pow2(k));
  }

  lemma LoIs(v: nat, k: nat)
    ensures Lo(v, k) == v / Pow2(k) * Pow2(k)
  {
    hide Pow2;
    Quotient(v, Pow2(k));
  }

  lemma Quotient(x: nat, p: nat)
    requires p > 0
    ensures x == x / p * p + x % p && x % p < p
  {
  }

  lemma Between(q: nat, t: nat, p: nat, r: nat)
    requires r < p
    ensures q * p <= t * p + r <= q * p + p - 1 <==> t == q
  {
    if t < q { MulLe(t + 1, q, p); }
    if t > q { MulLe(q + 1, t, p); }
  }

  /** cidr_t */
  class Cidr {
    const family: Family
    var bits: int
    const addr: array<Byte>

    constructor (family: Family, bits: int, bytes: seq<Byte>)
      requires |bytes| == Size(family)
      ensures this.family == family && this.bits == bits && addr[..] == bytes && fresh(addr)
    {
      this.family, this.bits := family, bits;
      addr := new Byte[|bytes|](i requires 0 <= i < |bytes| => bytes[i]);
    }

    /** The prefix length fits the family: L_checkbits and the parser see to it. */
    ghost predicate Valid()
      reads this, addr
    {
      addr.Length == Size(family) && 0 <= bits <= 8 * Size(family)
    }

    function Value(): nat
      reads addr
    {
      Val(addr[..])
    }

    /** The number of host bits. */
    function HostBits(): int
      reads this
    {
      8 * Size(family) - bits
    }

    /** _apply_mask with a number of bits */
    method ApplyMask(bits: int, inv: bool)
      requires addr.Length == Size(family)
      modifies addr
      ensures Value() == Masked(old(Value()), bits, inv, 8 * Size(family))
    {
      hide Masked, Val, Pow2;
      ghost var s := addr[..];
      PowBytes(Size(family));
      if bits <= 0 {
        Fill(addr, if inv then 255 else 0);
        ValFilled(addr[..], if inv then 255 else 0);
        NoPrefix(s, bits, inv);
      } else if family.Inet? && bits <= 32 {
        MaskWord(bits, inv);
      } else if bits <= 8 * Size(family) {
        MaskEach(bits, inv);
        MaskBytesMasks(s, bits, inv);
      } else {
        TooLong(Val(s), bits, inv, 8 * Size(family));
      }
    }

    /** The branch for 32-bit words */
    method MaskWord(bits: int, inv: bool)
      requires addr.Length == Size(family) && family.Inet? && 0 < bits <= 32
      modifies addr
      ensures Value() == Masked(old(Value()), bits, inv, 32)
    {
      ghost var s := addr[..];
      ValBound(s);
      PowBytes(4);
      var v := Ntohl(addr);
      MaskedWord(v, bits, inv);
      hide Val, Masked, BitAnd, BitOr, Pow2;
      if inv {
        Htonl(addr, BitOr(v, Pow2(32 - bits) - 1));
      } else {
        Htonl(addr, BitAnd(v, Pow2(32) - Pow2(32 - bits)));
      }
    }

    /** The loop over the bytes */
    method MaskEach(bits: nat, inv: bool)
      modifies addr
      ensures addr[..] == old(MaskBytes(addr[..], bits, inv))
    {
      hide MaskByte, MaskBytes;
      var left := bits;
      ghost var was := addr[..];
      assert addr[0..] == was;
      for i := 0 to addr.Length
        invariant addr[i..] == was[i..]
        invariant addr[..i] + MaskBytes(was[i..], left, inv) == MaskBytes(was, bits, inv)
      {
        var b := if left > 8 then 8 else left;
        ghost var done := addr[..i];
        FirstByte(was[i..], left, inv);
        assert was[i..][0] == was[i] && was[i..][1..] == was[i + 1..];
        addr[i] := MaskByte(addr[i], b, inv);
        left := left - b;
        assert addr[..i + 1] == done + [addr[i]];
      }
      assert addr[..addr.Length] == addr[..] && was[addr.Length..] == [];
    }

    /** `cidr_t r = *p` */
    method Copy() returns (r: Cidr)
      requires addr.Length == Size(family)
      ensures fresh(r) && fresh(r.addr) && r.family == family && r.bits == bits && r.addr[..] == addr[..]
    {
      r := new Cidr(family, bits, addr[..]);
    }

    /** cidr_contains: the other address's interval lies inside this one's. */
    method Contains(other: Cidr) returns (rv: bool)
      requires Valid() && other.Valid()
      ensures rv <==>
        && family == other.family
        && Lo(Value(), HostBits()) <= Lo(other.Value(), other.HostBits())
        && Hi(other.Value(), other.HostBits()) <= Hi(Value(), HostBits())
    {
      hide Masked, Lo, Hi, Val, Pow2;
      rv := false;
      var a := Copy();
      var b := other.Copy();
      if family == other.family { ContainsExactly(this, other); }
      if family == other.family && bits <= other.bits {
        a.ApplyMask(bits, false);
        b.ApplyMask(bits, false);
        rv := Same(a.addr, b.addr);
        MaskedLo(Value(), bits, 8 * Size(family));
        MaskedLo(other.Value(), bits, 8 * Size(family));
      }
    }

    /** _cidr_add_sub: on success the exact sum or difference, else the nearest address; in
        place the object changes, otherwise a new one is made, in neither case with another
        prefix length. */
    method AddOrSub(other: Cidr, add: bool, inplace: bool) returns (r: Cidr, ok: bool)
      requires Valid() && other.Valid()
      modifies if inplace then {addr} else {}
      ensures r.family == family && r.bits == bits && r.Valid()
      ensures if inplace then r == this else fresh(r) && fresh(r.addr)
      ensures family == other.family ==>
        (r.Value(), ok) == AddSub(old(Value()), old(other.Value()), add, Pow256(Size(family)))
      ensures family != other.family ==> r.Value() == old(Value()) && !ok
    {
      hide Val, Pow256;
      r := Copy();
      ok := true;
      if family == other.family {
        if family.Inet? {
          ok := AddSubWord(addr, other.addr, r.addr, add);
        } else {
          ok := AddSubBytes(addr, other.addr, r.addr, add);
        }
      } else {
        ok := false;
      }
      if inplace {
        var s := r.addr[..];
        CopyInto(addr, 0, s);
        assert addr[..] == s;
        r := this;
      }
    }

    /** cidr_minhost: the network address plus one, unless there are no host bits */
    method MinHost() returns (r: Cidr)
      requires Valid()
      ensures fresh(r) && fresh(r.addr) && r.family == family && r.bits == 8 * Size(family) && r.Valid()
      ensures r.Value() == Lo(Value(), HostBits()) + if HostBits() > 0 then 1 else 0
    {
      hide Masked, Lo, Val, Pow2, Pow256;
      r := Copy();
      r.ApplyMask(r.bits, false);
      MaskedLo(Value(), bits, 8 * Size(family));
      if HostBits() > 0 { RoomForOne(addr[..], HostBits()); }
      if r.family.Inet? && r.bits < 32 {
        r.bits := 32;
        var v := Ntohl(r.addr);
        ValFour(addr[..]);
        Htonl(r.addr, v + 1);
      } else if r.bits < 8 * Size(r.family) {
        r.bits := 8 * Size(r.family);
        Increment(r.addr);
      }
    }
  }

  /** The network address is even when there are host bits, so adding one does not carry
      out. */
  lemma RoomForOne(s: seq<Byte>, k: nat)
    requires 0 < k <= 8 * |s|
    ensures 0 <= Lo(Val(s), k) && Lo(Val(s), k) + 1 < Pow256(|s|)
  {
    ValBound(s);
    PowBytes(|s|);
    BlockBelow(Val(s), k, 8 * |s|);
    PowMono(1, k);
    assert Pow2(1) == 2;
  }

  /** The carry loop of cidr_minhost */
  method Increment(a: array<Byte>)
    requires Val(a[..]) + 1 < Pow256(a.Length)
    modifies a
    ensures Val(a[..]) == old(Val(a[..])) + 1
  {
    hide Val, Pow256;
    var n, carry: nat := a.Length, 1;
    ghost var was := a[..];
    NoBytes();
    assert a[n..] == was[n..] == [];
    for i := 0 to n
      invariant carry <= 1 && a[..n - i] == was[..n - i]
      invariant Val(a[n - i..]) == Val(was[n - i..]) + Pow256(0) - carry * Pow256(i)
    {
      var k := n - i - 1;
      ghost var x, after := a[k], a[k + 1..];
      assert a[..k + 1][k] == was[..k + 1][k];
      var rest := if (a[k] as nat) + carry > 255 then 1 else 0;
      a[k] := ((a[k] as nat) + carry) % 256;
      CarryStep(x, carry, Pow256(i), Val(was[k + 1..]), Val(after));
      carry := rest;
      assert a[k + 1..] == after && a[..k] == was[..k];
      ValStep(a[..], k);
      ValStep(was, k);
      NextPower(i);
      assert a[..][k..] == a[k..] && a[..][k + 1..] == a[k + 1..];
    }
    assert a[0..] == a[..] && was[0..] == was;
    ValBound(a[..]);
  }

  lemma CarryStep(x: Byte, c: nat, p: nat, before: nat, after: nat)
    requires c <= 1 && after == before + 1 - c * p
    ensures var c' := if (x as nat) + c > 255 then 1 else 0;
            ((x as nat) + c) % 256 * p + after == (x as nat) * p + before + 1 - c' * (256 * p)
  {
    var c' := if (x as nat) + c > 255 then 1 else 0;
    assert ((x as nat) + c) % 256 == x + c - 256 * c';
    Scaled(((x as nat) + c) % 256, x + c - 256 * c', p);
    assert (x + c - 256 * c') * p == x * p + c * p - c' * (256 * p);
  }

  /** diff_prefix: true when an address with `bits` prefix bits does not match a filter.  The
      word form and the byte form agree; an exact match also wants the same prefix length. */
  method DiffPrefix(family: Family, a: array?<Byte>, bits: int, exact: bool, filter: Cidr?) returns (diff: bool)
    requires filter != null ==> filter.Valid()
    requires a != null ==> a.Length == Size(family)
    ensures diff <==>
      filter != null && (a == null || filter.family != family || filter.bits > bits ||
                         Lo(Val(a[..]), filter.HostBits()) != Lo(filter.Value(), filter.HostBits()) ||
                         (exact && filter.bits != bits))
  {
    hide Lo, Val, Pow2;
    if filter == null { return false; }
    if a == null || filter.family != family || filter.bits > bits { return true; }
    var same: bool;
    if family.Inet? {
      same := SameWord(a, filter.addr, filter.bits);
    } else {
      same := SameBytes(a, filter.addr, filter.bits);
    }
    diff := !same || (exact && filter.bits != bits);
  }

  /** The comparison of words under a mask */
  method SameWord(a: array<Byte>, b: array<Byte>, bits: nat) returns (same: bool)
    requires a.Length == b.Length == 4 && bits <= 32
    ensures same <==> Lo(Val(a[..]), 32 - bits) == Lo(Val(b[..]), 32 - bits)
  {
    var x := Ntohl(a);
    var y := Ntohl(b);
    ThirtyTwo();
    AndMask(x, 32 - bits, 32);
    AndMask(y, 32 - bits, 32);
    hide Pow2, Val, BitAnd;
    var m := if bits != 0 then Pow2(32) - Pow2(32 - bits) else 0;
    same := BitAnd(x, m) == BitAnd(y, m);
  }

  /** The comparison byte by byte */
  method SameBytes(a: array<Byte>, b: array<Byte>, bits: nat) returns (same: bool)
    requires a.Length == b.Length && bits <= 8 * a.Length
    ensures same <==> Lo(Val(a[..]), 8 * a.Length - bits) == Lo(Val(b[..]), 8 * a.Length - bits)
  {
    hide Lo, Val, Pow2, MaskByte;
    MaskBytesMasks(a[..], bits, false);
    MaskBytesMasks(b[..], bits, false);
    MaskedLo(Val(a[..]), bits, 8 * a.Length);
    MaskedLo(Val(b[..]), bits, 8 * a.Length);
    ghost var x, y := MaskBytes(a[..], bits, false), MaskBytes(b[..], bits, false);
    if Val(x) == Val(y) { ValInjective(x, y); }
    var r := bits;
    assert a[0..] == a[..] && b[0..] == b[..];
    for i := 0 to a.Length
      invariant (x == y) <==> (MaskBytes(a[i..], r, false) == MaskBytes(b[i..], r, false))
    {
      var n := if r > 8 then 8 else r;
      assert a[i..][1..] == a[i + 1..] && b[i..][1..] == b[i + 1..];
      FirstByte(a[i..], r, false);
      FirstByte(b[i..], r, false);
      if MaskByte(a[i], n, false) != MaskByte(b[i], n, false) { return false; }
      r := r - n;
    }
    same := true;
  }

  lemma FirstByte(s: seq<Byte>, bits: nat, inv: bool)
    requires s != []
    ensures var n := if bits > 8 then 8 else bits;
            && MaskBytes(s, bits, inv) == [MaskByte(s[0], n, inv)] + MaskBytes(s[1..], bits - n, inv)
            && MaskBytes(s, bits, inv)[0] == MaskByte(s[0], n, inv)
            && MaskBytes(s, bits, inv)[1..] == MaskBytes(s[1..], bits - n, inv)
  {
  }

  /** memcmp for equality */
  method Same(a: array<Byte>, b: array<Byte>) returns (same: bool)
    requires a.Length == b.Length
    ensures same <==> Val(a[..]) == Val(b[..])
  {
    for i := 0 to a.Length
      invariant a[..i] == b[..i]
    {
      if a[i] != b[i] {
        if Val(a[..]) == Val(b[..]) { ValInjective(a[..], b[..]); }
        return false;
      }
    }
    assert a[..a.Length] == a[..] && b[..b.Length] == b[..];
    same := true;
  }

  lemma MaskedLo(v: nat, bits: nat, w: nat)
    requires bits <= w
    ensures Masked(v, bits, false, w) == Lo(v, w - bits)
  {
  }

  lemma ContainsExactly(p: Cidr, q: Cidr)
    requires p.Valid() && q.Valid() && p.family == q.family
    ensures (p.bits <= q.bits && Lo(p.Value(), p.HostBits()) == Lo(q.Value(), p.HostBits())) <==>
            (Lo(p.Value(), p.HostBits()) <= Lo(q.Value(), q.HostBits()) &&
             Hi(q.Value(), q.HostBits()) <= Hi(p.Value(), p.HostBits()))
  {
    hide Lo, Hi;
    Inclusion(p.Value(), p.HostBits(), q.Value(), q.HostBits());
  }

  /** Inclusion of blocks of powers of two. */
  lemma Inclusion(v: nat, k: nat, u: nat, j: nat)
    ensures (j <= k && Lo(v, k) == Lo(u, k)) <==> (Lo(v, k) <= Lo(u, j) && Hi(u, j) <= Hi(v, k))
  {
    if j <= k {
      InnerBlock(u, k, j);
      if Lo(v, k) <= Lo(u, j) && Hi(u, j) <= Hi(v, k) { SameBlock(v, u, Pow2(k)); }
    } else {
      PowMono(k + 1, j);
    }
  }

  /** Containment is a partial order up to masking: two blocks that contain each other have
      the same prefix length and the same network. */
  lemma MutualInclusion(v: nat, k: nat, u: nat, j: nat)
    requires Lo(v, k) <= Lo(u, j) && Hi(u, j) <= Hi(v, k) && Lo(u, j) <= Lo(v, k) && Hi(v, k) <= Hi(u, j)
    ensures k == j && Lo(v, k) == Lo(u, k)
  {
    Inclusion(v, k, u, j);
    Inclusion(u, j, v, k);
  }

  /** A smaller block lies in the larger block of the same number. */
  lemma InnerBlock(u: nat, k: nat, j: nat)
    requires j <= k
    ensures Lo(u, k) <= Lo(u, j) && Hi(u, j) <= Hi(u, k)
  {
    PowAdds(k - j, j);
    hide Pow2;
    Nested(u, Pow2(k - j), Pow2(j));
  }

  lemma Nested(u: nat, m: nat, d: nat)
    requires m > 0 && d > 0
    ensures m * d > 0 && u - u % (m * d) <= u - u % d && u - u % d + d <= u - u % (m * d) + m * d
  {
    var q, e := u / d, u % d;
    var r := q % m;
    DivParts(u, d);
    ModOfProduct(q, d, m, e);
    MulLe(r + 1, m, d);
    Distribute(r, 1, d);
    Bounds(u, e, r * d, u % (m * d), d, m * d);
  }

  lemma DivParts(u: nat, d: nat)
    requires d > 0
    ensures u == u / d * d + u % d
  {
  }

  lemma Bounds(u: int, e: int, rd: int, rest: int, d: int, md: int)
    requires rest == rd + e && 0 <= rd && rd + d <= md
    ensures u - rest <= u - e && u - e + d <= u - rest + md
  {
  }

  lemma Distribute(x: int, y: int, z: int)
    ensures (x + y) * z == x * z + y * z
  {
  }

  lemma SameBlock(v: nat, u: nat, d: nat)
    requires d > 0 && v - v % d <= u < v - v % d + d
    ensures u - u % d == v - v % d
  {
    var q := v / d;
    assert v == d * q + v % d;
    ModUnique(u, d, q, u - (v - v % d));
  }

  lemma ThirtyTwo()
    ensures Pow2(32) == 0x1_0000_0000
  {
    EightBits();
    PowAdds(8, 8);
    PowAdds(16, 16);
  }

  lemma MaskedWord(v: nat, bits: nat, inv: bool)
    requires v < 0x1_0000_0000 && 0 < bits <= 32
    ensures Pow2(32 - bits) <= Pow2(32)
    ensures 0 <= Masked(v, bits, inv, 32) < 0x1_0000_0000
    ensures Masked(v, bits, inv, 32)
         == if inv then BitOr(v, Pow2(32 - bits) - 1) else BitAnd(v, Pow2(32) - Pow2(32 - bits))
  {
    var k := 32 - bits;
    ThirtyTwo();
    AndMask(v, k, 32);
    OrMask(v, k);
    BlockBelow(v, k, 32);
    hide BitAnd, BitOr, Pow2;
  }

  lemma NoPrefix(s: seq<Byte>, bits: int, inv: bool)
    requires bits <= 0
    ensures Masked(Val(s), bits, inv, 8 * |s|) == if inv then Pow256(|s|) - 1 else 0
  {
    ValBound(s);
    PowBytes(|s|);
    ModUnique(Val(s), Pow256(|s|), 0, Val(s));
  }

  lemma TooLong(v: nat, bits: int, inv: bool, w: nat)
    requires bits > w
    ensures Masked(v, bits, inv, w) == v
  {
  }
}
