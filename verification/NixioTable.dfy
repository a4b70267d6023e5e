/** The table in nixio (luci/libs/luci-lib-nixio/src/binary.c:42-96), in rows of sixteen: its entries
    are the ones that add_header computes. */
module NixioTable {
  import opened Crc32

  function Row0(): seq<Word> {
    [0x00000000, 0x77073096, 0xee0e612c, 0x990951ba, 0x076dc419, 0x706af48f, 0xe963a535, 0x9e6495a3,
     0x0edb8832, 0x79dcb8a4, 0xe0d5e91e, 0x97d2d988, 0x09b64c2b, 0x7eb17cbd, 0xe7b82d07, 0x90bf1d91]
  }

  function Row1(): seq<Word> {
    [0x1db71064, 0x6ab020f2, 0xf3b97148, 0x84be41de, 0x1adad47d, 0x6ddde4eb, 0xf4d4b551, 0x83d385c7,
     0x136c9856, 0x646ba8c0, 0xfd62f97a, 0x8a65c9ec, 0x14015c4f, 0x63066cd9, 0xfa0f3d63, 0x8d080df5]
  }

  function Row2(): seq<Word> {
    [0x3b6e20c8, 0x4c69105e, 0xd56041e4, 0xa2677172, 0x3c03e4d1, 0x4b04d447, 0xd20d85fd, 0xa50ab56b,
     0x35b5a8fa, 0x42b2986c, 0xdbbbc9d6, 0xacbcf940, 0x32d86ce3, 0x45df5c75, 0xdcd60dcf, 0xabd13d59]
  }

  function Row3(): seq<Word> {
    [0x26d930ac, 0x51de003a, 0xc8d75180, 0xbfd06116, 0x21b4f4b5, 0x56b3c423, 0xcfba9599, 0xb8bda50f,
     0x2802b89e, 0x5f058808, 0xc60cd9b2, 0xb10be924, 0x2f6f7c87, 0x58684c11, 0xc1611dab, 0xb6662d3d]
  }

  function Row4(): seq<Word> {
    [0x76dc4190, 0x01db7106, 0x98d220bc, 0xefd5102a, 0x71b18589, 0x06b6b51f, 0x9fbfe4a5, 0xe8b8d433,
     0x7807c9a2, 0x0f00f934, 0x9609a88e, 0xe10e9818, 0x7f6a0dbb, 0x086d3d2d, 0x91646c97, 0xe6635c01]
  }

  function Row5(): seq<Word> {
    [0x6b6b51f4, 0x1c6c6162, 0x856530d8, 0xf262004e, 0x6c0695ed, 0x1b01a57b, 0x8208f4c1, 0xf50fc457,
     0x65b0d9c6, 0x12b7e950, 0x8bbeb8ea, 0xfcb9887c, 0x62dd1ddf, 0x15da2d49, 0x8cd37cf3, 0xfbd44c65]
  }

  function Row6(): seq<Word> {
    [0x4db26158, 0x3ab551ce, 0xa3bc0074, 0xd4bb30e2, 0x4adfa541, 0x3dd895d7, 0xa4d1c46d, 0xd3d6f4fb,
     0x4369e96a, 0x346ed9fc, 0xad678846, 0xda60b8d0, 0x44042d73, 0x33031de5, 0xaa0a4c5f, 0xdd0d7cc9]
  }

  function Row7(): seq<Word> {
    [0x5005713c, 0x270241aa, 0xbe0b1010, 0xc90c2086, 0x5768b525, 0x206f85b3, 0xb966d409, 0xce61e49f,
     0x5edef90e, 0x29d9c998, 0xb0d09822, 0xc7d7a8b4, 0x59b33d17, 0x2eb40d81, 0xb7bd5c3b, 0xc0ba6cad]
  }

  function Row8(): seq<Word> {
    [0xedb88320, 0x9abfb3b6, 0x03b6e20c, 0x74b1d29a, 0xead54739, 0x9dd277af, 0x04db2615, 0x73dc1683,
     0xe3630b12, 0x94643b84, 0x0d6d6a3e, 0x7a6a5aa8, 0xe40ecf0b, 0x9309ff9d, 0x0a00ae27, 0x7d079eb1]
  }

  function Row9(): seq<Word> {
    [0xf00f9344, 0x8708a3d2, 0x1e01f268, 0x6906c2fe, 0xf762575d, 0x806567cb, 0x196c3671, 0x6e6b06e7,
     0xfed41b76, 0x89d32be0, 0x10da7a5a, 0x67dd4acc, 0xf9b9df6f, 0x8ebeeff9, 0x17b7be43, 0x60b08ed5]
  }

  function Row10(): seq<Word> {
    [0xd6d6a3e8, 0xa1d1937e, 0x38d8c2c4, 0x4fdff252, 0xd1bb67f1, 0xa6bc5767, 0x3fb506dd, 0x48b2364b,
     0xd80d2bda, 0xaf0a1b4c, 0x36034af6, 0x41047a60, 0xdf60efc3, 0xa867df55, 0x316e8eef, 0x4669be79]
  }

  function Row11(): seq<Word> {
    [0xcb61b38c, 0xbc66831a, 0x256fd2a0, 0x5268e236, 0xcc0c7795, 0xbb0b4703, 0x220216b9, 0x5505262f,
     0xc5ba3bbe, 0xb2bd0b28, 0x2bb45a92, 0x5cb36a04, 0xc2d7ffa7, 0xb5d0cf31, 0x2cd99e8b, 0x5bdeae1d]
  }

  function Row12(): seq<Word> {
    [0x9b64c2b0, 0xec63f226, 0x756aa39c, 0x026d930a, 0x9c0906a9, 0xeb0e363f, 0x72076785, 0x05005713,
     0x95bf4a82, 0xe2b87a14, 0x7bb12bae, 0x0cb61b38, 0x92d28e9b, 0xe5d5be0d, 0x7cdcefb7, 0x0bdbdf21]
  }

  function Row13(): seq<Word> {
    [0x86d3d2d4, 0xf1d4e242, 0x68ddb3f8, 0x1fda836e, 0x81be16cd, 0xf6b9265b, 0x6fb077e1, 0x18b74777,
     0x88085ae6, 0xff0f6a70, 0x66063bca, 0x11010b5c, 0x8f659eff, 0xf862ae69, 0x616bffd3, 0x166ccf45]
  }

  function Row14(): seq<Word> {
    [0xa00ae278, 0xd70dd2ee, 0x4e048354, 0x3903b3c2, 0xa7672661, 0xd06016f7, 0x4969474d, 0x3e6e77db,
     0xaed16a4a, 0xd9d65adc, 0x40df0b66, 0x37d83bf0, 0xa9bcae53, 0xdebb9ec5, 0x47b2cf7f, 0x30b5ffe9]
  }

  function Row15(): seq<Word> {
    [0xbdbdf21c, 0xcabac28a, 0x53b39330, 0x24b4a3a6, 0xbad03605, 0xcdd70693, 0x54de5729, 0x23d967bf,
     0xb3667a2e, 0xc4614ab8, 0x5d681b02, 0x2a6f2b94, 0xb40bbe37, 0xc30c8ea1, 0x5a05df1b, 0x2d02ef8d]
  }

  function Row(i: nat): seq<Word>
    requires i < 16
  {
    match i
    case 0 => Row0()
    case 1 => Row1()
    case 2 => Row2()
    case 3 => Row3()
    case 4 => Row4()
    case 5 => Row5()
    case 6 => Row6()
    case 7 => Row7()
    case 8 => Row8()
    case 9 => Row9()
    case 10 => Row10()
    case 11 => Row11()
    case 12 => Row12()
    case 13 => Row13()
    case 14 => Row14()
    case _ => Row15()
  }

  // --------------------------------------------- the first column and row

  /** Eight bits through the register. */
  function Eight(x: Word): Word { Shift(Shift(Shift(Shift(Shift(Shift(Shift(Shift(x)))))))) }

  lemma EightIsShifts(x: Word)
    ensures Eight(x) == Shifts(x, 8)
  {
    hide Shift;
    assert Shifts(x, 1) == Shift(x);
    assert Shifts(x, 2) == Shift(Shift(x));
    assert Shifts(x, 3) == Shift(Shifts(x, 2));
    assert Shifts(x, 4) == Shift(Shifts(x, 3));
    assert Shifts(x, 5) == Shift(Shifts(x, 4));
    assert Shifts(x, 6) == Shift(Shifts(x, 5));
    assert Shifts(x, 7) == Shift(Shifts(x, 6));
  }

  lemma FirstRowFrom0(l: Word)
    requires 0 <= l < 4
    ensures Row0()[l as int] == Eight(l)
  {
    if l == 0 { assert Eight(0) == 0x00000000; }
    if l == 1 { assert Eight(1) == 0x77073096; }
    if l == 2 { assert Eight(2) == 0xee0e612c; }
    if l == 3 { assert Eight(3) == 0x990951ba; }
  }

  lemma FirstRowFrom4(l: Word)
    requires 4 <= l < 8
    ensures Row0()[l as int] == Eight(l)
  {
    if l == 4 { assert Eight(4) == 0x076dc419; }
    if l == 5 { assert Eight(5) == 0x706af48f; }
    if l == 6 { assert Eight(6) == 0xe963a535; }
    if l == 7 { assert Eight(7) == 0x9e6495a3; }
  }

  lemma FirstRowFrom8(l: Word)
    requires 8 <= l < 12
    ensures Row0()[l as int] == Eight(l)
  {
    if l == 8 { assert Eight(8) == 0x0edb8832; }
    if l == 9 { assert Eight(9) == 0x79dcb8a4; }
    if l == 10 { assert Eight(10) == 0xe0d5e91e; }
    if l == 11 { assert Eight(11) == 0x97d2d988; }
  }

  lemma FirstRowFrom12(l: Word)
    requires 12 <= l < 16
    ensures Row0()[l as int] == Eight(l)
  {
    if l == 12 { assert Eight(12) == 0x09b64c2b; }
    if l == 13 { assert Eight(13) == 0x7eb17cbd; }
    if l == 14 { assert Eight(14) == 0xe7b82d07; }
    if l == 15 { assert Eight(15) == 0x90bf1d91; }
  }

  lemma FirstRow(l: Word)
    requires l < 16
    ensures |Row0()| == 16 && Row0()[l as int] == Eight(l)
  {
    RowLength(0);
    hide Row0, Eight;
    if l < 4 { FirstRowFrom0(l); }
    else if l < 8 { FirstRowFrom4(l); }
    else if l < 12 { FirstRowFrom8(l); }
    else { FirstRowFrom12(l); }
  }

  lemma RowLength(i: nat)
    requires i < 16
    ensures |Row(i)| == 16
  {
  }

  // ------------------------------------------------------ a known value

  /** One byte from a register to the next. */
  predicate Leads(crc: Word, b: bv8, next: Word) { next == Xor(Eight(Low(Xor(crc, b as Word))), crc >> 8) }

  lemma OneByte(data: seq<bv8>, n: nat, crc: Word, next: Word)
    requires n < |data| && SerialAll(0xFFFFFFFF, data[..n]) == crc && Leads(crc, data[n], next)
    ensures SerialAll(0xFFFFFFFF, data[..n + 1]) == next
  {
    hide Low, Xor, Eight, Serial;
    EightIsShifts(Low(Xor(crc, data[n] as Word)));
    ByteStep(crc, data[n]);
    assert data[..n + 1][..n] == data[..n];
  }

  lemma Registers0()
    ensures Leads(0xFFFFFFFF, 0x31, 0x7C231048)
    ensures Leads(0x7C231048, 0x32, 0xB0ACBB32)
    ensures Leads(0xB0ACBB32, 0x33, 0x77B79C2D)
  {
  }

  lemma Registers1()
    ensures Leads(0x77B79C2D, 0x34, 0x641C1F5C)
    ensures Leads(0x641C1F5C, 0x35, 0x340AC5E3)
    ensures Leads(0x340AC5E3, 0x36, 0xF68D2C9E)
  {
  }

  lemma Registers2()
    ensures Leads(0xF68D2C9E, 0x37, 0xAFFC9660)
    ensures Leads(0xAFFC9660, 0x38, 0x651F2550)
    ensures Leads(0x651F2550, 0x39, 0x340BC6D9)
  {
  }

  /** The CRC-32 of the digits from 1 to 9 is the usual check value. */
  lemma CheckValue()
    ensures Crc([0x31, 0x32, 0x33, 0x34, 0x35, 0x36, 0x37, 0x38, 0x39], 0) == 0xCBF43926
  {
    hide SerialAll, Leads;
    var d: seq<bv8> := [0x31, 0x32, 0x33, 0x34, 0x35, 0x36, 0x37, 0x38, 0x39];
    NoBytes();
    assert d[..0] == [] && d[..9] == d;
    Registers0();
    Registers1();
    Registers2();
    OneByte(d, 0, 0xFFFFFFFF, 0x7C231048);
    OneByte(d, 1, 0x7C231048, 0xB0ACBB32);
    OneByte(d, 2, 0xB0ACBB32, 0x77B79C2D);
    OneByte(d, 3, 0x77B79C2D, 0x641C1F5C);
    OneByte(d, 4, 0x641C1F5C, 0x340AC5E3);
    OneByte(d, 5, 0x340AC5E3, 0xF68D2C9E);
    OneByte(d, 6, 0xF68D2C9E, 0xAFFC9660);
    OneByte(d, 7, 0xAFFC9660, 0x651F2550);
    OneByte(d, 8, 0x651F2550, 0x340BC6D9);
  }

  lemma NoBytes()
    ensures SerialAll(0xFFFFFFFF, []) == 0xFFFFFFFF
  {
  }

  // ----------------------------------------------------------- the others

  function Mixed(row: seq<Word>, x: Word): (r: seq<Word>)
    requires |row| == 16
    ensures |r| == 16 && forall j :: 0 <= j < 16 ==> r[j] == Xor(x, row[j])
  {
    seq(16, j requires 0 <= j < 16 => Xor(x, row[j]))
  }

  /** A row follows from its first entry, the eight-fold shift of `h`, and from the first row. */
  predicate Follows(row: seq<Word>, h: Word) {
    |row| == |Row0()| == 16 && row[0] == Eight(h) && row == Mixed(Row0(), row[0])
  }

  lemma Follows0()
    ensures Follows(Row0(), 0x00)
  {
  }

  lemma Follows1()
    ensures Follows(Row1(), 0x10)
  {
  }

  lemma Follows2()
    ensures Follows(Row2(), 0x20)
  {
  }

  lemma Follows3()
    ensures Follows(Row3(), 0x30)
  {
  }

  lemma Follows4()
    ensures Follows(Row4(), 0x40)
  {
  }

  lemma Follows5()
    ensures Follows(Row5(), 0x50)
  {
  }

  lemma Follows6()
    ensures Follows(Row6(), 0x60)
  {
  }

  lemma Follows7()
    ensures Follows(Row7(), 0x70)
  {
  }

  lemma Follows8()
    ensures Follows(Row8(), 0x80)
  {
  }

  lemma Follows9()
    ensures Follows(Row9(), 0x90)
  {
  }

  lemma Follows10()
    ensures Follows(Row10(), 0xa0)
  {
  }

  lemma Follows11()
    ensures Follows(Row11(), 0xb0)
  {
  }

  lemma Follows12()
    ensures Follows(Row12(), 0xc0)
  {
  }

  lemma Follows13()
    ensures Follows(Row13(), 0xd0)
  {
  }

  lemma Follows14()
    ensures Follows(Row14(), 0xe0)
  {
  }

  lemma Follows15()
    ensures Follows(Row15(), 0xf0)
  {
  }

  lemma RowsFrom0(h: Word)
    requires 0x00 <= h < 0x40 && h & 15 == 0
    ensures h >> 4 < 16 && Follows(Row((h >> 4) as int), h)
  {
    hide Follows, Row0, Row1, Row2, Row3, Row4, Row5, Row6, Row7, Row8, Row9, Row10, Row11, Row12, Row13, Row14, Row15;
    assert h == 0x00 || h == 0x10 || h == 0x20 || h == 0x30;
    Follows0();
    Follows1();
    Follows2();
    Follows3();
  }

  lemma RowsFrom4(h: Word)
    requires 0x40 <= h < 0x80 && h & 15 == 0
    ensures h >> 4 < 16 && Follows(Row((h >> 4) as int), h)
  {
    hide Follows, Row0, Row1, Row2, Row3, Row4, Row5, Row6, Row7, Row8, Row9, Row10, Row11, Row12, Row13, Row14, Row15;
    assert h == 0x40 || h == 0x50 || h == 0x60 || h == 0x70;
    Follows4();
    Follows5();
    Follows6();
    Follows7();
  }

  lemma RowsFrom8(h: Word)
    requires 0x80 <= h < 0xc0 && h & 15 == 0
    ensures h >> 4 < 16 && Follows(Row((h >> 4) as int), h)
  {
    hide Follows, Row0, Row1, Row2, Row3, Row4, Row5, Row6, Row7, Row8, Row9, Row10, Row11, Row12, Row13, Row14, Row15;
    assert h == 0x80 || h == 0x90 || h == 0xa0 || h == 0xb0;
    Follows8();
    Follows9();
    Follows10();
    Follows11();
  }

  lemma RowsFrom12(h: Word)
    requires 0xc0 <= h < 0x100 && h & 15 == 0
    ensures h >> 4 < 16 && Follows(Row((h >> 4) as int), h)
  {
    hide Follows, Row0, Row1, Row2, Row3, Row4, Row5, Row6, Row7, Row8, Row9, Row10, Row11, Row12, Row13, Row14, Row15;
    assert h == 0xc0 || h == 0xd0 || h == 0xe0 || h == 0xf0;
    Follows12();
    Follows13();
    Follows14();
    Follows15();
  }

  lemma EveryRowFollows(h: Word)
    requires h < 256 && h & 15 == 0
    ensures h >> 4 < 16 && Follows(Row((h >> 4) as int), h)
  {
    hide Follows, Row;
    if h < 0x40 { RowsFrom0(h); }
    else if h < 0x80 { RowsFrom4(h); }
    else if h < 0xc0 { RowsFrom8(h); }
    else { RowsFrom12(h); }
  }

  lemma Nibbles(x: Word)
    requires x < 256
    ensures var h, l := x & 0xf0, x & 15; h < 256 && h & 15 == 0 && l < 16 && x == Xor(h, l) && h >> 4 == x >> 4 < 16
    ensures (x >> 4) as int * 16 + (x & 15) as int == x as int
  {
  }

  /** Every entry is the eight-fold shift of its index. */
  lemma NixioTableIsComputed(x: Word)
    requires x < 256
    ensures x >> 4 < 16 && x & 15 < 16 && |Row((x >> 4) as int)| == 16
    ensures Row((x >> 4) as int)[(x & 15) as int] == Shifts(x, 8)
  {
    hide Row, Row0, Eight, Xor, Shifts;
    Nibbles(x);
    var h, l := x & 0xf0, x & 15;
    EveryRowFollows(h);
    FirstRow(l);
    EightIsShifts(h);
    EightIsShifts(l);
    ShiftsOfXor(h, l, 8);
  }

  /** nixio__crc32_tbl */
  method Table() returns (t: array<Word>)
    ensures IsTable(t) && fresh(t)
  {
    hide Row, Shifts;
    t := new Word[256];
    for i := 0 to 16
      invariant forall a :: 0 <= a < i ==> |Row(a)| == 16
      invariant forall a, b :: 0 <= a < i && 0 <= b < 16 ==> t[16 * a + b] == Row(a)[b]
    {
      RowLength(i);
      for j := 0 to 16
        invariant forall a, b :: 0 <= a < i && 0 <= b < 16 ==> t[16 * a + b] == Row(a)[b]
        invariant forall b :: 0 <= b < j ==> t[16 * i + b] == Row(i)[b]
      {
        t[16 * i + j] := Row(i)[j];
      }
    }
    RowsMakeTable(t[..]);
  }

  ghost predicate Shifted(t: seq<Word>) { |t| == 256 && forall x: Word :: x < 256 ==> t[x as int] == Shifts(x, 8) }

  lemma RowsMakeTable(t: seq<Word>)
    requires |t| == 256 && forall a :: 0 <= a < 16 ==> |Row(a)| == 16
    requires forall a, b :: 0 <= a < 16 && 0 <= b < 16 ==> t[16 * a + b] == Row(a)[b]
    ensures Shifted(t)
  {
    hide Row, Shifts;
    forall x: Word | x < 256
      ensures t[x as int] == Shifts(x, 8)
    {
      Nibbles(x);
      NixioTableIsComputed(x);
      var i: nat, j: nat := (x >> 4) as int, (x & 15) as int;
      assert t[16 * i + j] == Row(i)[j];
    }
  }

  /** nixio_bin_crc32 with its own table */
  method BinCrc32(buf: seq<bv8>, seed: Word) returns (r: Word)
    ensures r == Crc(buf, seed)
  {
    var t := Table();
    r := NixioCrc32(t, buf, seed);
  }
}
