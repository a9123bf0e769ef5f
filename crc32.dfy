/** The CRC-32 of the Affinity palette writer (palette-js/write_afpalette.js): the reflected
    polynomial 0xEDB88320, register preset to all ones and complemented at the end, computed
    with a 256-entry table as in the sample code of section 8 of RFC 1952 (CRC-32/ISO-HDLC). */
module Crc32 {
  import opened Bytes

  const POLY: bv32 := 0xEDB8_8320

  /** One step of the reflected shift register. */
  function Shift(c: bv32): bv32 {
    if c & 1 == 1 then POLY ^ (c >> 1) else c >> 1
  }

  /** n steps of the register. */
  function ShiftN(c: bv32, n: nat): bv32 {
    if n == 0 then c else Shift(ShiftN(c, n - 1))
  }

  /** What the table holds at i: i after eight register steps, one byte's worth. */
  function TableEntry(i: int): bv32
    requires 0 <= i < 256
  {
    ShiftN(i as bv32, 8)
  }

  predicate IsCrcTable(table: seq<bv32>) {
    |table| == 256 && forall i {:trigger TableEntry(i)} :: 0 <= i < 256 ==> table[i] == TableEntry(i)
  }

  /** The table slot for the next byte: the low byte of the register xored with b. */
  function Slot(crc: bv32, b: byte): (r: int)
    ensures 0 <= r < 256
  {
    ((crc ^ (b as bv32)) & 0xFF) as int
  }

  /** The table: entry i is i after eight register steps. */
  function CrcTable(): (r: seq<bv32>)
    ensures |r| == 256
  {
    seq(256, i requires 0 <= i < 256 => TableEntry(i))
  }

  /** The table is determined by what it must hold. */
  lemma CrcTableUnique(table: seq<bv32>)
    requires IsCrcTable(table)
    ensures table == CrcTable()
  {
  }

  /** The register after the bytes of data, starting from crc, one table step per byte. */
  function Register(table: seq<bv32>, crc: bv32, data: seq<byte>): bv32
    requires |table| == 256
  {
    if data == [] then crc
    else
      var c := Register(table, crc, data[..|data| - 1]);
      table[Slot(c, data[|data| - 1])] ^ (c >> 8)
  }

  /** The CRC-32 of data: the register preset to all ones, complemented at the end. */
  function Crc32Of(data: seq<byte>): bv32 {
    Register(CrcTable(), 0xFFFF_FFFF, data) ^ 0xFFFF_FFFF
  }

  /** The `crc32Table` initialiser: entry i is i after eight shift/xor steps. */
  method BuildCrcTable() returns (table: seq<bv32>)
    ensures IsCrcTable(table)
  {
    var t := new bv32[256];
    var i := 0;
    while i < 256
      invariant 0 <= i <= 256
      invariant forall k :: 0 <= k < i ==> t[k] == TableEntry(k)
    {
      var c: bv32 := i as bv32;
      var j := 0;
      while j < 8
        invariant 0 <= j <= 8
        invariant c == ShiftN(i as bv32, j)
      {
        if c & 1 == 1 {
          c := POLY ^ (c >> 1);
        } else {
          c := c >> 1;
        }
        j := j + 1;
      }
      t[i] := c;
      i := i + 1;
    }
    table := t[..];
  }

  /** Feeding byte k of a window is one more table step. */
  lemma RegisterStep(table: seq<bv32>, window: seq<byte>, k: nat)
    requires |table| == 256 && k < |window|
    ensures var c := Register(table, 0xFFFF_FFFF, window[..k]);
      Register(table, 0xFFFF_FFFF, window[..k + 1]) == table[Slot(c, window[k])] ^ (c >> 8)
  {
    assert window[..k + 1][..k] == window[..k];
  }

  /** A fold with any table that holds the right entries computes the CRC-32. */
  lemma RegisterComplete(table: seq<bv32>, window: seq<byte>)
    requires IsCrcTable(table)
    ensures Register(table, 0xFFFF_FFFF, window[..|window|]) ^ 0xFFFF_FFFF == Crc32Of(window)
  {
    assert window[..|window|] == window;
    CrcTableUnique(table);
  }

  /** One turn of the CRC loop: byte k of the window moves the register one table step. */
  method FeedByte(table: seq<bv32>, crc: bv32, b: byte, ghost window: seq<byte>, k: nat) returns (crc': bv32)
    requires |table| == 256 && k < |window| && b == window[k]
    requires crc == Register(table, 0xFFFF_FFFF, window[..k])
    ensures crc' == Register(table, 0xFFFF_FFFF, window[..k + 1])
  {
    RegisterStep(table, window, k);
    crc' := table[Slot(crc, b)] ^ (crc >> 8);
  }

  /** `computeCRC32(data, offset, length)`: the fold over the bytes [offset, offset + length)
      is the CRC-32 of those bytes. */
  method ComputeCrc32(data: array<byte>, offset: nat, length: nat, table: seq<bv32>) returns (r: bv32)
    requires IsCrcTable(table)
    requires offset + length <= data.Length
    ensures r == Crc32Of(data[offset..offset + length])
  {
    ghost var window := data[offset..offset + length];
    var crc: bv32 := 0xFFFF_FFFF;
    var k := 0;
    while k < length
      invariant 0 <= k <= length
      invariant crc == Register(table, 0xFFFF_FFFF, window[..k])
    {
      var b := data[offset + k];
      assert b == window[k];
      crc := FeedByte(table, crc, b, window, k);
      k := k + 1;
    }
    assert |window| == k;
    RegisterComplete(table, window);
    r := crc ^ 0xFFFF_FFFF;
  }

  // ---------------------------------------------------------------- the standard check value

  /** The ASCII digits "123456789", the input on which CRC-32 implementations are checked. */
  const CHECK_INPUT: seq<byte> := [0x31, 0x32, 0x33, 0x34, 0x35, 0x36, 0x37, 0x38, 0x39]

  /** Eight register steps of i, one at a time, as the table builder takes them. */
  lemma EntrySteps(i: int, c: seq<bv32>)
    requires 0 <= i < 256 && |c| == 9 && c[0] == i as bv32
    requires Shift(c[0]) == c[1] && Shift(c[1]) == c[2] && Shift(c[2]) == c[3] && Shift(c[3]) == c[4]
    requires Shift(c[4]) == c[5] && Shift(c[5]) == c[6] && Shift(c[6]) == c[7] && Shift(c[7]) == c[8]
    ensures TableEntry(i) == c[8]
  {
    assert ShiftN(i as bv32, 0) == c[0];
    assert ShiftN(i as bv32, 1) == c[1];
    assert ShiftN(i as bv32, 2) == c[2];
    assert ShiftN(i as bv32, 3) == c[3];
    assert ShiftN(i as bv32, 4) == c[4];
    assert ShiftN(i as bv32, 5) == c[5];
    assert ShiftN(i as bv32, 6) == c[6];
    assert ShiftN(i as bv32, 7) == c[7];
  }

  /** The table entries the check input visits, each eight register steps of its index. */
  lemma CheckEntries()
    ensures TableEntry(1) == 0x7707_3096
    ensures TableEntry(25) == 0x646B_A8C0
    ensures TableEntry(88) == 0x65B0_D9C6
    ensures TableEntry(105) == 0x346E_D9FC
    ensures TableEntry(122) == 0xB0D0_9822
    ensures TableEntry(169) == 0xAF0A_1B4C
    ensures TableEntry(206) == 0x7CDC_EFB7
    ensures TableEntry(213) == 0xF6B9_265B
  {
    EntrySteps(1, [0x0000_0001, 0xEDB8_8320, 0x76DC_4190, 0x3B6E_20C8, 0x1DB7_1064, 0x0EDB_8832, 0x076D_C419, 0xEE0E_612C, 0x7707_3096]);
    EntrySteps(25, [0x0000_0019, 0xEDB8_832C, 0x76DC_4196, 0x3B6E_20CB, 0xF00F_9345, 0x95BF_4A82, 0x4ADF_A541, 0xC8D7_5180, 0x646B_A8C0]);
    EntrySteps(88, [0x0000_0058, 0x0000_002C, 0x0000_0016, 0x0000_000B, 0xEDB8_8325, 0x9B64_C2B2, 0x4DB2_6159, 0xCB61_B38C, 0x65B0_D9C6]);
    EntrySteps(105, [0x0000_0069, 0xEDB8_8314, 0x76DC_418A, 0x3B6E_20C5, 0xF00F_9342, 0x7807_C9A1, 0xD1BB_67F0, 0x68DD_B3F8, 0x346E_D9FC]);
    EntrySteps(122, [0x0000_007A, 0x0000_003D, 0xEDB8_833E, 0x76DC_419F, 0xD6D6_A3EF, 0x86D3_D2D7, 0xAED1_6A4B, 0xBAD0_3605, 0xB0D0_9822]);
    EntrySteps(169, [0x0000_00A9, 0xEDB8_8374, 0x76DC_41BA, 0x3B6E_20DD, 0xF00F_934E, 0x7807_C9A7, 0xD1BB_67F3, 0x8565_30D9, 0xAF0A_1B4C]);
    EntrySteps(206, [0x0000_00CE, 0x0000_0067, 0xEDB8_8313, 0x9B64_C2A9, 0xA00A_E274, 0x5005_713A, 0x2802_B89D, 0xF9B9_DF6E, 0x7CDC_EFB7]);
    EntrySteps(213, [0x0000_00D5, 0xEDB8_834A, 0x76DC_41A5, 0xD6D6_A3F2, 0x6B6B_51F9, 0xD80D_2BDC, 0x6C06_95EE, 0x3603_4AF7, 0xF6B9_265B]);
  }

  /** Byte k of the check input moves the register from prev to next through table entry idx. */
  lemma CheckStep(d: seq<byte>, k: nat, b: byte, prev: bv32, idx: int, entry: bv32, next: bv32)
    requires k < |d|
    requires d[k] == b
    requires Register(CrcTable(), 0xFFFF_FFFF, d[..k]) == prev
    requires Slot(prev, b) == idx
    requires 0 <= idx < 256 && TableEntry(idx) == entry
    requires entry ^ (prev >> 8) == next
    ensures Register(CrcTable(), 0xFFFF_FFFF, d[..k + 1]) == next
  {
    RegisterStep(CrcTable(), d, k);
  }

  /** The register after the first 1 byte of the check input. */
  lemma CheckPrefix1(d: seq<byte>)
    requires d == CHECK_INPUT
    ensures Register(CrcTable(), 0xFFFF_FFFF, d[..1]) == 0x7C23_1048
  {
    assert d[..0] == [];
    CheckEntries();
    CheckStep(d, 0, 0x31, 0xFFFF_FFFF, 206, 0x7CDC_EFB7, 0x7C23_1048);
  }

  /** The register after the first 2 bytes of the check input. */
  lemma CheckPrefix2(d: seq<byte>)
    requires d == CHECK_INPUT
    ensures Register(CrcTable(), 0xFFFF_FFFF, d[..2]) == 0xB0AC_BB32
  {
    CheckPrefix1(d);
    CheckEntries();
    CheckStep(d, 1, 0x32, 0x7C23_1048, 122, 0xB0D0_9822, 0xB0AC_BB32);
  }

  /** The register after the first 3 bytes of the check input. */
  lemma CheckPrefix3(d: seq<byte>)
    requires d == CHECK_INPUT
    ensures Register(CrcTable(), 0xFFFF_FFFF, d[..3]) == 0x77B7_9C2D
  {
    CheckPrefix2(d);
    CheckEntries();
    CheckStep(d, 2, 0x33, 0xB0AC_BB32, 1, 0x7707_3096, 0x77B7_9C2D);
  }

  /** The register after the first 4 bytes of the check input. */
  lemma CheckPrefix4(d: seq<byte>)
    requires d == CHECK_INPUT
    ensures Register(CrcTable(), 0xFFFF_FFFF, d[..4]) == 0x641C_1F5C
  {
    CheckPrefix3(d);
    CheckEntries();
    CheckStep(d, 3, 0x34, 0x77B7_9C2D, 25, 0x646B_A8C0, 0x641C_1F5C);
  }

  /** The register after the first 5 bytes of the check input. */
  lemma CheckPrefix5(d: seq<byte>)
    requires d == CHECK_INPUT
    ensures Register(CrcTable(), 0xFFFF_FFFF, d[..5]) == 0x340A_C5E3
  {
    CheckPrefix4(d);
    CheckEntries();
    CheckStep(d, 4, 0x35, 0x641C_1F5C, 105, 0x346E_D9FC, 0x340A_C5E3);
  }

  /** The register after the first 6 bytes of the check input. */
  lemma CheckPrefix6(d: seq<byte>)
    requires d == CHECK_INPUT
    ensures Register(CrcTable(), 0xFFFF_FFFF, d[..6]) == 0xF68D_2C9E
  {
    CheckPrefix5(d);
    CheckEntries();
    CheckStep(d, 5, 0x36, 0x340A_C5E3, 213, 0xF6B9_265B, 0xF68D_2C9E);
  }

  /** The register after the first 7 bytes of the check input. */
  lemma CheckPrefix7(d: seq<byte>)
    requires d == CHECK_INPUT
    ensures Register(CrcTable(), 0xFFFF_FFFF, d[..7]) == 0xAFFC_9660
  {
    CheckPrefix6(d);
    CheckEntries();
    CheckStep(d, 6, 0x37, 0xF68D_2C9E, 169, 0xAF0A_1B4C, 0xAFFC_9660);
  }

  /** The register after the first 8 bytes of the check input. */
  lemma CheckPrefix8(d: seq<byte>)
    requires d == CHECK_INPUT
    ensures Register(CrcTable(), 0xFFFF_FFFF, d[..8]) == 0x651F_2550
  {
    CheckPrefix7(d);
    CheckEntries();
    CheckStep(d, 7, 0x38, 0xAFFC_9660, 88, 0x65B0_D9C6, 0x651F_2550);
  }

  /** The register after the first 9 bytes of the check input. */
  lemma CheckPrefix9(d: seq<byte>)
    requires d == CHECK_INPUT
    ensures Register(CrcTable(), 0xFFFF_FFFF, d[..9]) == 0x340B_C6D9
  {
    CheckPrefix8(d);
    CheckEntries();
    CheckStep(d, 8, 0x39, 0x651F_2550, 105, 0x346E_D9FC, 0x340B_C6D9);
  }

  /** The check value of CRC-32/ISO-HDLC: the CRC-32 of "123456789" is 0xCBF43926. */
  lemma CheckValue()
    ensures Crc32Of(CHECK_INPUT) == 0xCBF4_3926
  {
    CheckPrefix9(CHECK_INPUT);
    assert CHECK_INPUT[..9] == CHECK_INPUT;
  }
}
