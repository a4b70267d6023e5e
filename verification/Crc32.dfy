/** Table-driven CRC-32 (openwrt/tools/firmware-utils/src/add_header.c:39-65,
    luci/libs/luci-lib-nixio/src/binary.c:97-109) against the bit-serial reflected CRC, on a
    little-endian host. */
module Crc32 {

  type Word = bv32

  const POLY: Word := 0xedb88320

  function Xor(x: Word, y: Word): Word { x ^ y }

  function Shr(x: Word): Word { x >> 1 }

  predicate Odd(x: Word) { x & 1 == 1 }

  // ---------------------------------------------------- bits, one at a time

  /** One bit through the register. */
  function Shift(x: Word): Word { if Odd(x) then Xor(POLY, Shr(x)) else Shr(x) }

  function Shifts(x: Word, k: nat): Word { if k == 0 then x else Shift(Shifts(x, k - 1)) }

  function Shrs(x: Word, k: nat): Word { if k == 0 then x else Shr(Shrs(x, k - 1)) }

  /** The register after k bits of b, least significant first: each bit is compared with the
      one that falls out. */
  function Serial(crc: Word, b: Word, k: nat): Word {
    if k == 0 then crc
    else
      var c := Serial(crc, b, k - 1);
      if Odd(Xor(c, Shrs(b, k - 1))) then Xor(POLY, Shr(c)) else Shr(c)
  }

  /** The register after a string. */
  function SerialAll(crc: Word, data: seq<bv8>): Word {
    if data == [] then crc else Serial(SerialAll(crc, data[..|data| - 1]), data[|data| - 1] as Word, 8)
  }

  /** The bits of a byte, least significant first. */
  function BitsOf(b: bv8): (s: seq<bool>)
    ensures |s| == 8
  {
    [b & 1 != 0, b & 2 != 0, b & 4 != 0, b & 8 != 0, b & 16 != 0, b & 32 != 0, b & 64 != 0, b & 128 != 0]
  }

  function Bits(data: seq<bv8>): seq<bool> {
    if data == [] then [] else Bits(data[..|data| - 1]) + BitsOf(data[|data| - 1])
  }

  /** The shift register with feedback, one message bit at a time. */
  function Register(crc: Word, bits: seq<bool>): Word {
    if bits == [] then crc
    else
      var c := Register(crc, bits[..|bits| - 1]);
      if Odd(c) != bits[|bits| - 1] then Xor(POLY, Shr(c)) else Shr(c)
  }

  lemma {:induction false} RegisterConcat(crc: Word, a: seq<bool>, b: seq<bool>)
    ensures Register(crc, a + b) == Register(Register(crc, a), b)
  {
    if b == [] {
      assert a + b == a;
    } else {
      assert (a + b)[..|a + b| - 1] == a + b[..|b| - 1];
      RegisterConcat(crc, a, b[..|b| - 1]);
    }
  }

  lemma BitOfByte(b: bv8, k: nat)
    requires k < 8
    ensures Odd(Shrs(b as Word, k)) <==> BitsOf(b)[k]
  {
    var w := b as Word;
    assert Shrs(w, 1) == Shr(w);
    assert Shrs(w, 2) == Shr(Shr(w));
    assert Shrs(w, 3) == Shr(Shr(Shr(w)));
    assert Shrs(w, 4) == Shr(Shr(Shr(Shr(w))));
    assert Shrs(w, 5) == Shr(Shr(Shr(Shr(Shr(w)))));
    assert Shrs(w, 6) == Shr(Shr(Shr(Shr(Shr(Shr(w))))));
    assert Shrs(w, 7) == Shr(Shr(Shr(Shr(Shr(Shr(Shr(w)))))));
  }

  lemma {:induction false} SerialIsRegister(crc: Word, b: bv8, k: nat)
    requires k <= 8
    ensures Serial(crc, b as Word, k) == Register(crc, BitsOf(b)[..k])
  {
    if k > 0 {
      SerialIsRegister(crc, b, k - 1);
      BitOfByte(b, k - 1);
      OddOfXor(Serial(crc, b as Word, k - 1), Shrs(b as Word, k - 1));
      assert BitsOf(b)[..k][..k - 1] == BitsOf(b)[..k - 1];
    }
  }

  /** A string goes through the register with eight bits for each byte, in the order in which
      they are transmitted. */
  lemma {:induction false} SerialIsBits(crc: Word, data: seq<bv8>)
    ensures SerialAll(crc, data) == Register(crc, Bits(data))
  {
    hide Serial, BitsOf;
    if data != [] {
      var last := data[|data| - 1];
      SerialIsBits(crc, data[..|data| - 1]);
      SerialIsRegister(SerialAll(crc, data[..|data| - 1]), last, 8);
      assert BitsOf(last)[..8] == BitsOf(last);
      RegisterConcat(crc, Bits(data[..|data| - 1]), BitsOf(last));
    }
  }

  // ---------------------------------------------------------- facts on bits

  lemma XorIsGroup(x: Word, y: Word, z: Word)
    ensures Xor(x, Xor(y, z)) == Xor(Xor(x, y), z) && Xor(x, y) == Xor(y, x) && Xor(x, x) == 0 && Xor(x, 0) == x
  {
  }

  lemma ShrOfXor(x: Word, y: Word)
    ensures Shr(Xor(x, y)) == Xor(Shr(x), Shr(y))
  {
  }

  lemma OddOfXor(x: Word, y: Word)
    ensures Odd(Xor(x, y)) <==> (Odd(x) != Odd(y))
  {
  }

  lemma {:induction false} ShiftOfXor(x: Word, y: Word)
    ensures Shift(Xor(x, y)) == Xor(Shift(x), Shift(y))
  {
    ShrOfXor(x, y);
    OddOfXor(x, y);
    hide Xor, Shr, Odd;
    var p, a, b := POLY, Shr(x), Shr(y);
    XorIsGroup(p, a, b);
    XorIsGroup(a, p, b);
    XorIsGroup(p, p, 0);
    XorIsGroup(Xor(p, a), p, b);
    XorIsGroup(a, p, p);
    XorIsGroup(a, 0, 0);
  }

  lemma {:induction false} ShiftsOfXor(x: Word, y: Word, k: nat)
    ensures Shifts(Xor(x, y), k) == Xor(Shifts(x, k), Shifts(y, k))
  {
    hide Xor, Shift;
    if k > 0 {
      ShiftsOfXor(x, y, k - 1);
      ShiftOfXor(Shifts(x, k - 1), Shifts(y, k - 1));
    }
  }

  /** Shifting the register with the byte mixed in at once is shifting it bit by bit, up to
      the bits not used yet. */
  lemma {:induction false} SerialIsShifts(crc: Word, b: Word, k: nat)
    ensures Shifts(Xor(crc, b), k) == Xor(Serial(crc, b, k), Shrs(b, k))
  {
    hide Xor, Shr, Odd;
    if k > 0 {
      SerialIsShifts(crc, b, k - 1);
      var c, r := Serial(crc, b, k - 1), Shrs(b, k - 1);
      ShrOfXor(c, r);
      XorIsGroup(POLY, Shr(c), Shr(r));
    }
  }

  lemma EightShifts(x: Word)
    ensures Shrs(x, 8) == x >> 8
  {
    hide Shr;
    assert Shrs(x, 1) == Shr(x);
    assert Shrs(x, 2) == Shr(Shr(x));
    assert Shrs(x, 3) == Shr(Shr(Shr(x)));
    assert Shrs(x, 4) == Shr(Shr(Shr(Shr(x))));
    assert Shrs(x, 5) == Shr(Shr(Shr(Shr(Shr(x)))));
    assert Shrs(x, 6) == Shr(Shr(Shr(Shr(Shr(Shr(x))))));
    assert Shrs(x, 7) == Shr(Shr(Shr(Shr(Shr(Shr(Shr(x)))))));
    assert Shrs(x, 8) == Shr(Shr(Shr(Shr(Shr(Shr(Shr(Shr(x))))))));
    EightHalves(x);
  }

  lemma EightHalves(x: Word)
    ensures Shr(Shr(Shr(Shr(Shr(Shr(Shr(Shr(x)))))))) == x >> 8
  {
  }

  function And(x: Word, m: Word): Word { x & m }

  lemma HalfZero(x: Word, m: Word)
    requires And(x, m) == 0
    ensures And(Shr(x), Shr(m)) == 0
    ensures Odd(m) ==> !Odd(x)
  {
  }

  lemma OnesAreOdd()
    ensures forall k :: 0 <= k < 8 ==> Odd(Shrs(0xff, k))
  {
    forall k | 0 <= k < 8
      ensures Odd(Shrs(0xff, k))
    {
      Ones(k);
    }
  }

  lemma Ones(k: nat)
    requires k < 8
    ensures Odd(Shrs(0xff, k))
  {
    assert Shrs(0xff, 1) == 0x7f;
    assert Shrs(0xff, 2) == 0x3f;
    assert Shrs(0xff, 3) == 0x1f;
    assert Shrs(0xff, 4) == 0x0f;
    assert Shrs(0xff, 5) == 0x07;
    assert Shrs(0xff, 6) == 0x03;
    assert Shrs(0xff, 7) == 0x01;
  }

  /** A register whose low bits are clear is only shifted. */
  lemma {:induction false} HighShifts(h: Word, k: nat)
    requires And(h, 0xff) == 0 && k <= 8
    ensures Shifts(h, k) == Shrs(h, k) && And(Shrs(h, k), Shrs(0xff, k)) == 0
  {
    hide And, Shr, Odd, Xor;
    if k > 0 {
      HighShifts(h, k - 1);
      OnesAreOdd();
      HalfZero(Shrs(h, k - 1), Shrs(0xff, k - 1));
    }
  }

  function Low(x: Word): Word { x & 0xff }

  function High(x: Word): Word { x & 0xffffff00 }

  lemma SplitBits(x: Word)
    ensures Xor(Low(x), High(x)) == x
  {
  }

  lemma HighIsClear(x: Word)
    ensures And(High(x), 0xff) == 0
  {
  }

  lemma HighShifted(x: Word)
    ensures High(x) >> 8 == x >> 8
  {
  }

  /** Eight bits at once: the low byte by a table, the rest by a shift. */
  lemma TableStep(x: Word)
    ensures Shifts(x, 8) == Xor(Shifts(Low(x), 8), x >> 8)
  {
    hide And, Xor, Low, High, Shifts, Shrs;
    SplitBits(x);
    HighIsClear(x);
    HighShifted(x);
    ShiftsOfXor(Low(x), High(x), 8);
    HighShifts(High(x), 8);
    EightShifts(High(x));
  }

  lemma ByteShr(crc: Word, b: bv8)
    ensures (b as Word) >> 8 == 0 && Xor(crc, b as Word) >> 8 == crc >> 8
  {
  }

  /** One byte through the table is that byte bit by bit. */
  lemma ByteStep(crc: Word, b: bv8)
    ensures Serial(crc, b as Word, 8) == Xor(Shifts(Low(Xor(crc, b as Word)), 8), crc >> 8)
  {
    var w := b as Word;
    ByteShr(crc, b);
    EightShifts(w);
    hide Xor, Low, Serial, Shifts, Shrs;
    SerialIsShifts(crc, w, 8);
    XorIsGroup(Serial(crc, w, 8), 0, 0);
    TableStep(Xor(crc, w));
  }

  // -------------------------------------------------------------- the table

  ghost predicate IsTable(t: array<Word>)
    reads t
  {
    t.Length == 256 && forall x: Word :: x < 256 ==> t[x as int] == Shifts(x, 8)
  }

  /** init_crc32 */
  method InitCrc32(table: array<Word>)
    requires table.Length == 256
    modifies table
    ensures IsTable(table)
  {
    hide Shift;
    for n := 0 to 256
      invariant forall k :: 0 <= k < n ==> table[k] == Shifts(k as Word, 8)
    {
      var crc := n as Word;
      for bit := 0 to 8
        invariant crc == Shifts(n as Word, bit)
      {
        crc := ShiftOnce(crc);
      }
      table[n] := crc;
    }
  }

  /** `(crc & 1) ? (poly ^ (crc >> 1)) : (crc >> 1)` */
  function ShiftOnce(crc: Word): (r: Word)
    ensures r == Shift(crc)
  {
    if crc & 1 != 0 then POLY ^ (crc >> 1) else crc >> 1
  }

  lemma Index(x: Word)
    ensures Low(x) as int < 256 && ((Low(x) as int) as Word) == Low(x)
  {
  }

  /** The loop of crc32buf and of nixio_bin_crc32: a register through the table */
  method Update(table: array<Word>, crc: Word, buf: seq<bv8>) returns (r: Word)
    requires IsTable(table)
    ensures r == SerialAll(crc, buf)
  {
    hide Low, Xor, Serial, Shifts;
    r := crc;
    for i := 0 to |buf|
      invariant r == SerialAll(crc, buf[..i])
    {
      var x := Xor(r, buf[i] as Word);
      Index(x);
      ByteStep(r, buf[i]);
      assert buf[..i + 1][..i] == buf[..i];
      r := Xor(table[Low(x) as int], r >> 8);
    }
    assert buf[..|buf|] == buf;
  }

  /** The CRC of a string, from the CRC of what came before it (0 for nothing). */
  function Crc(data: seq<bv8>, seed: Word): Word { Not(SerialAll(Not(seed), data)) }

  function Not(x: Word): Word { !x }

  /** crc32buf */
  method Crc32Buf(table: array<Word>, buf: seq<bv8>) returns (r: Word)
    requires IsTable(table)
    ensures r == Crc(buf, 0)
  {
    var crc := Update(table, 0xFFFFFFFF, buf);
    assert Not(0) == 0xFFFFFFFF;
    r := Not(crc);
  }

  /** nixio_bin_crc32 */
  method NixioCrc32(table: array<Word>, buf: seq<bv8>, seed: Word) returns (r: Word)
    requires IsTable(table)
    ensures r == Crc(buf, seed)
  {
    var value := Update(table, Not(seed), buf);
    AllOnes(value);
    r := value ^ 0xFFFFFFFF;
  }

  lemma AllOnes(x: Word)
    ensures x ^ 0xFFFFFFFF == Not(x)
  {
  }

  lemma NotNot(x: Word)
    ensures Not(Not(x)) == x
  {
  }

  lemma {:induction false} SerialConcat(crc: Word, a: seq<bv8>, b: seq<bv8>)
    ensures SerialAll(crc, a + b) == SerialAll(SerialAll(crc, a), b)
  {
    if b == [] {
      assert a + b == a;
    } else {
      assert (a + b)[..|a + b| - 1] == a + b[..|b| - 1];
      SerialConcat(crc, a, b[..|b| - 1]);
    }
  }

  /** The CRC of a string can be continued with what follows it. */
  lemma CrcContinues(a: seq<bv8>, b: seq<bv8>, seed: Word)
    ensures Crc(b, Crc(a, seed)) == Crc(a + b, seed)
  {
    hide SerialAll, Not;
    SerialConcat(Not(seed), a, b);
    NotNot(SerialAll(Not(seed), a));
  }
}
