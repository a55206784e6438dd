/** The lookup-table build of the checksum (SDP3X_LOOKUP_TABLE defined): a hand-transcribed
    table of the one-byte update of a zero register, indexed by register XOR input byte. */
module CrcTable {
  import opened Crc

  /** A row of the table: 16 entries, indexed by the low nibble of a byte. */
  type Row = r: seq<bv8> | |r| == 16
    witness seq(16, _ => 0 as bv8)

  /** A 16 x 16 table of bytes: 16 rows, indexed by the high nibble of a byte. */
  type Table = t: seq<Row> | |t| == 16
    witness seq(16, _ => seq(16, _ => 0 as bv8))

  /** The lookup table as transcribed in the driver, one constant per row. */
  const LookupTable: Table :=
    [Row0, Row1, Row2, Row3, Row4, Row5, Row6, Row7, Row8, Row9, RowA, RowB, RowC, RowD, RowE, RowF]

  const Row0: Row := [0x00, 0x31, 0x62, 0x53, 0xC4, 0xF5, 0xA6, 0x97, 0xB9, 0x88, 0xDB, 0xEA, 0x7D, 0x4C, 0x1F, 0x2E]
  const Row1: Row := [0x43, 0x72, 0x21, 0x10, 0x87, 0xB6, 0xE5, 0xD4, 0xFA, 0xCB, 0x98, 0xA9, 0x3E, 0x0F, 0x5C, 0x6D]
  const Row2: Row := [0x86, 0xB7, 0xE4, 0xD5, 0x42, 0x73, 0x20, 0x11, 0x3F, 0x0E, 0x5D, 0x6C, 0xFB, 0xCA, 0x99, 0xA8]
  const Row3: Row := [0xC5, 0xF4, 0xA7, 0x96, 0x01, 0x30, 0x63, 0x52, 0x7C, 0x4D, 0x1E, 0x2F, 0xB8, 0x89, 0xDA, 0xEB]
  const Row4: Row := [0x3D, 0x0C, 0x5F, 0x6E, 0xF9, 0xC8, 0x9B, 0xAA, 0x84, 0xB5, 0xE6, 0xD7, 0x40, 0x71, 0x22, 0x13]
  const Row5: Row := [0x7E, 0x4F, 0x1C, 0x2D, 0xBA, 0x8B, 0xD8, 0xE9, 0xC7, 0xF6, 0xA5, 0x94, 0x03, 0x32, 0x61, 0x50]
  const Row6: Row := [0xBB, 0x8A, 0xD9, 0xE8, 0x7F, 0x4E, 0x1D, 0x2C, 0x02, 0x33, 0x60, 0x51, 0xC6, 0xF7, 0xA4, 0x95]
  const Row7: Row := [0xF8, 0xC9, 0x9A, 0xAB, 0x3C, 0x0D, 0x5E, 0x6F, 0x41, 0x70, 0x23, 0x12, 0x85, 0xB4, 0xE7, 0xD6]
  const Row8: Row := [0x7A, 0x4B, 0x18, 0x29, 0xBE, 0x8F, 0xDC, 0xED, 0xC3, 0xF2, 0xA1, 0x90, 0x07, 0x36, 0x65, 0x54]
  const Row9: Row := [0x39, 0x08, 0x5B, 0x6A, 0xFD, 0xCC, 0x9F, 0xAE, 0x80, 0xB1, 0xE2, 0xD3, 0x44, 0x75, 0x26, 0x17]
  const RowA: Row := [0xFC, 0xCD, 0x9E, 0xAF, 0x38, 0x09, 0x5A, 0x6B, 0x45, 0x74, 0x27, 0x16, 0x81, 0xB0, 0xE3, 0xD2]
  const RowB: Row := [0xBF, 0x8E, 0xDD, 0xEC, 0x7B, 0x4A, 0x19, 0x28, 0x06, 0x37, 0x64, 0x55, 0xC2, 0xF3, 0xA0, 0x91]
  const RowC: Row := [0x47, 0x76, 0x25, 0x14, 0x83, 0xB2, 0xE1, 0xD0, 0xFE, 0xCF, 0x9C, 0xAD, 0x3A, 0x0B, 0x58, 0x69]
  const RowD: Row := [0x04, 0x35, 0x66, 0x57, 0xC0, 0xF1, 0xA2, 0x93, 0xBD, 0x8C, 0xDF, 0xEE, 0x79, 0x48, 0x1B, 0x2A]
  const RowE: Row := [0xC1, 0xF0, 0xA3, 0x92, 0x05, 0x34, 0x67, 0x56, 0x78, 0x49, 0x1A, 0x2B, 0xBC, 0x8D, 0xDE, 0xEF]
  const RowF: Row := [0x82, 0xB3, 0xE0, 0xD1, 0x46, 0x77, 0x24, 0x15, 0x3B, 0x0A, 0x59, 0x68, 0xFF, 0xCE, 0x9D, 0xAC]

  /** The entry for index i: row i >> 4, column i & 0xF. */
  function Entry(table: Table, i: bv8): bv8
  {
    table[(i >> 4) as int][(i & 0xF) as int]
  }

  /** A table for this checksum: every entry is its index shifted through the register eight times. */
  ghost predicate IsCrcTable(table: Table)
  {
    forall i: bv8 :: Entry(table, i) == Shifts(i, BitsPerByte)
  }

  /** ShiftStep without a branch: the top bit, spread to a mask, selects the polynomial. */
  function MaskedStep(c: bv8): (r: bv8)
    ensures r == ShiftStep(c)
  {
    (c << 1) ^ ((0 - (c >> 7)) & Polynomial)
  }

  /** The one-byte update of a zero register written as the XOR of the contributions of the
      set bits of x; the contribution of bit k is the table entry at index 1 << k. */
  function BitContributions(x: bv8): bv8
  {
    ((0 - (x & 1)) & 0x31) ^ ((0 - ((x >> 1) & 1)) & 0x62) ^
    ((0 - ((x >> 2) & 1)) & 0xC4) ^ ((0 - ((x >> 3) & 1)) & 0xB9) ^
    ((0 - ((x >> 4) & 1)) & 0x43) ^ ((0 - ((x >> 5) & 1)) & 0x86) ^
    ((0 - ((x >> 6) & 1)) & 0x3D) ^ ((0 - ((x >> 7) & 1)) & 0x7A)
  }

  /** Eight shift steps, one after the other. */
  lemma ShiftsUnrolled(x: bv8)
    ensures Shifts(x, BitsPerByte)
         == MaskedStep(MaskedStep(MaskedStep(MaskedStep(MaskedStep(MaskedStep(MaskedStep(MaskedStep(x))))))))
  {
    assert Shifts(x, 1) == MaskedStep(x);
    assert Shifts(x, 2) == MaskedStep(Shifts(x, 1));
    assert Shifts(x, 3) == MaskedStep(Shifts(x, 2));
    assert Shifts(x, 4) == MaskedStep(Shifts(x, 3));
    assert Shifts(x, 5) == MaskedStep(Shifts(x, 4));
    assert Shifts(x, 6) == MaskedStep(Shifts(x, 5));
    assert Shifts(x, 7) == MaskedStep(Shifts(x, 6));
  }

  /** Eight masked steps equal the XOR of the bit contributions. */
  lemma MaskedStepsAreBitContributions(x: bv8)
    ensures MaskedStep(MaskedStep(MaskedStep(MaskedStep(MaskedStep(MaskedStep(MaskedStep(MaskedStep(x))))))))
         == BitContributions(x)
  {
  }

  /** Eight shifts of x yield the XOR of the contributions of the bits of x. */
  lemma ShiftsAreBitContributions(x: bv8)
    ensures Shifts(x, BitsPerByte) == BitContributions(x)
  {
    ShiftsUnrolled(x);
    MaskedStepsAreBitContributions(x);
  }

  /** Row 0x0 of the table: entries 0x00 to 0x0F. */
  lemma Row0Agrees(i: bv8)
    requires i >> 4 == 0x0
    ensures Entry(LookupTable, i) == BitContributions(i)
  {
    assert LookupTable[0x0] == Row0;
    assert Row0
        == [BitContributions(0x00), BitContributions(0x01), BitContributions(0x02), BitContributions(0x03),
           BitContributions(0x04), BitContributions(0x05), BitContributions(0x06), BitContributions(0x07),
           BitContributions(0x08), BitContributions(0x09), BitContributions(0x0A), BitContributions(0x0B),
           BitContributions(0x0C), BitContributions(0x0D), BitContributions(0x0E), BitContributions(0x0F)];
  }

  /** Row 0x1 of the table: entries 0x10 to 0x1F. */
  lemma Row1Agrees(i: bv8)
    requires i >> 4 == 0x1
    ensures Entry(LookupTable, i) == BitContributions(i)
  {
    assert LookupTable[0x1] == Row1;
    assert Row1
        == [BitContributions(0x10), BitContributions(0x11), BitContributions(0x12), BitContributions(0x13),
           BitContributions(0x14), BitContributions(0x15), BitContributions(0x16), BitContributions(0x17),
           BitContributions(0x18), BitContributions(0x19), BitContributions(0x1A), BitContributions(0x1B),
           BitContributions(0x1C), BitContributions(0x1D), BitContributions(0x1E), BitContributions(0x1F)];
  }

  /** Row 0x2 of the table: entries 0x20 to 0x2F. */
  lemma Row2Agrees(i: bv8)
    requires i >> 4 == 0x2
    ensures Entry(LookupTable, i) == BitContributions(i)
  {
    assert LookupTable[0x2] == Row2;
    assert Row2
        == [BitContributions(0x20), BitContributions(0x21), BitContributions(0x22), BitContributions(0x23),
           BitContributions(0x24), BitContributions(0x25), BitContributions(0x26), BitContributions(0x27),
           BitContributions(0x28), BitContributions(0x29), BitContributions(0x2A), BitContributions(0x2B),
           BitContributions(0x2C), BitContributions(0x2D), BitContributions(0x2E), BitContributions(0x2F)];
  }

  /** Row 0x3 of the table: entries 0x30 to 0x3F. */
  lemma Row3Agrees(i: bv8)
    requires i >> 4 == 0x3
    ensures Entry(LookupTable, i) == BitContributions(i)
  {
    assert LookupTable[0x3] == Row3;
    assert Row3
        == [BitContributions(0x30), BitContributions(0x31), BitContributions(0x32), BitContributions(0x33),
           BitContributions(0x34), BitContributions(0x35), BitContributions(0x36), BitContributions(0x37),
           BitContributions(0x38), BitContributions(0x39), BitContributions(0x3A), BitContributions(0x3B),
           BitContributions(0x3C), BitContributions(0x3D), BitContributions(0x3E), BitContributions(0x3F)];
  }

  /** Row 0x4 of the table: entries 0x40 to 0x4F. */
  lemma Row4Agrees(i: bv8)
    requires i >> 4 == 0x4
    ensures Entry(LookupTable, i) == BitContributions(i)
  {
    assert LookupTable[0x4] == Row4;
    assert Row4
        == [BitContributions(0x40), BitContributions(0x41), BitContributions(0x42), BitContributions(0x43),
           BitContributions(0x44), BitContributions(0x45), BitContributions(0x46), BitContributions(0x47),
           BitContributions(0x48), BitContributions(0x49), BitContributions(0x4A), BitContributions(0x4B),
           BitContributions(0x4C), BitContributions(0x4D), BitContributions(0x4E), BitContributions(0x4F)];
  }

  /** Row 0x5 of the table: entries 0x50 to 0x5F. */
  lemma Row5Agrees(i: bv8)
    requires i >> 4 == 0x5
    ensures Entry(LookupTable, i) == BitContributions(i)
  {
    assert LookupTable[0x5] == Row5;
    assert Row5
        == [BitContributions(0x50), BitContributions(0x51), BitContributions(0x52), BitContributions(0x53),
           BitContributions(0x54), BitContributions(0x55), BitContributions(0x56), BitContributions(0x57),
           BitContributions(0x58), BitContributions(0x59), BitContributions(0x5A), BitContributions(0x5B),
           BitContributions(0x5C), BitContributions(0x5D), BitContributions(0x5E), BitContributions(0x5F)];
  }

  /** Row 0x6 of the table: entries 0x60 to 0x6F. */
  lemma Row6Agrees(i: bv8)
    requires i >> 4 == 0x6
    ensures Entry(LookupTable, i) == BitContributions(i)
  {
    assert LookupTable[0x6] == Row6;
    assert Row6
        == [BitContributions(0x60), BitContributions(0x61), BitContributions(0x62), BitContributions(0x63),
           BitContributions(0x64), BitContributions(0x65), BitContributions(0x66), BitContributions(0x67),
           BitContributions(0x68), BitContributions(0x69), BitContributions(0x6A), BitContributions(0x6B),
           BitContributions(0x6C), BitContributions(0x6D), BitContributions(0x6E), BitContributions(0x6F)];
  }

  /** Row 0x7 of the table: entries 0x70 to 0x7F. */
  lemma Row7Agrees(i: bv8)
    requires i >> 4 == 0x7
    ensures Entry(LookupTable, i) == BitContributions(i)
  {
    assert LookupTable[0x7] == Row7;
    assert Row7
        == [BitContributions(0x70), BitContributions(0x71), BitContributions(0x72), BitContributions(0x73),
           BitContributions(0x74), BitContributions(0x75), BitContributions(0x76), BitContributions(0x77),
           BitContributions(0x78), BitContributions(0x79), BitContributions(0x7A), BitContributions(0x7B),
           BitContributions(0x7C), BitContributions(0x7D), BitContributions(0x7E), BitContributions(0x7F)];
  }

  /** Row 0x8 of the table: entries 0x80 to 0x8F. */
  lemma Row8Agrees(i: bv8)
    requires i >> 4 == 0x8
    ensures Entry(LookupTable, i) == BitContributions(i)
  {
    assert LookupTable[0x8] == Row8;
    assert Row8
        == [BitContributions(0x80), BitContributions(0x81), BitContributions(0x82), BitContributions(0x83),
           BitContributions(0x84), BitContributions(0x85), BitContributions(0x86), BitContributions(0x87),
           BitContributions(0x88), BitContributions(0x89), BitContributions(0x8A), BitContributions(0x8B),
           BitContributions(0x8C), BitContributions(0x8D), BitContributions(0x8E), BitContributions(0x8F)];
  }

  /** Row 0x9 of the table: entries 0x90 to 0x9F. */
  lemma Row9Agrees(i: bv8)
    requires i >> 4 == 0x9
    ensures Entry(LookupTable, i) == BitContributions(i)
  {
    assert LookupTable[0x9] == Row9;
    assert Row9
        == [BitContributions(0x90), BitContributions(0x91), BitContributions(0x92), BitContributions(0x93),
           BitContributions(0x94), BitContributions(0x95), BitContributions(0x96), BitContributions(0x97),
           BitContributions(0x98), BitContributions(0x99), BitContributions(0x9A), BitContributions(0x9B),
           BitContributions(0x9C), BitContributions(0x9D), BitContributions(0x9E), BitContributions(0x9F)];
  }

  /** Row 0xA of the table: entries 0xA0 to 0xAF. */
  lemma RowAAgrees(i: bv8)
    requires i >> 4 == 0xA
    ensures Entry(LookupTable, i) == BitContributions(i)
  {
    assert LookupTable[0xA] == RowA;
    assert RowA
        == [BitContributions(0xA0), BitContributions(0xA1), BitContributions(0xA2), BitContributions(0xA3),
           BitContributions(0xA4), BitContributions(0xA5), BitContributions(0xA6), BitContributions(0xA7),
           BitContributions(0xA8), BitContributions(0xA9), BitContributions(0xAA), BitContributions(0xAB),
           BitContributions(0xAC), BitContributions(0xAD), BitContributions(0xAE), BitContributions(0xAF)];
  }

  /** Row 0xB of the table: entries 0xB0 to 0xBF. */
  lemma RowBAgrees(i: bv8)
    requires i >> 4 == 0xB
    ensures Entry(LookupTable, i) == BitContributions(i)
  {
    assert LookupTable[0xB] == RowB;
    assert RowB
        == [BitContributions(0xB0), BitContributions(0xB1), BitContributions(0xB2), BitContributions(0xB3),
           BitContributions(0xB4), BitContributions(0xB5), BitContributions(0xB6), BitContributions(0xB7),
           BitContributions(0xB8), BitContributions(0xB9), BitContributions(0xBA), BitContributions(0xBB),
           BitContributions(0xBC), BitContributions(0xBD), BitContributions(0xBE), BitContributions(0xBF)];
  }

  /** Row 0xC of the table: entries 0xC0 to 0xCF. */
  lemma RowCAgrees(i: bv8)
    requires i >> 4 == 0xC
    ensures Entry(LookupTable, i) == BitContributions(i)
  {
    assert LookupTable[0xC] == RowC;
    assert RowC
        == [BitContributions(0xC0), BitContributions(0xC1), BitContributions(0xC2), BitContributions(0xC3),
           BitContributions(0xC4), BitContributions(0xC5), BitContributions(0xC6), BitContributions(0xC7),
           BitContributions(0xC8), BitContributions(0xC9), BitContributions(0xCA), BitContributions(0xCB),
           BitContributions(0xCC), BitContributions(0xCD), BitContributions(0xCE), BitContributions(0xCF)];
  }

  /** Row 0xD of the table: entries 0xD0 to 0xDF. */
  lemma RowDAgrees(i: bv8)
    requires i >> 4 == 0xD
    ensures Entry(LookupTable, i) == BitContributions(i)
  {
    assert LookupTable[0xD] == RowD;
    assert RowD
        == [BitContributions(0xD0), BitContributions(0xD1), BitContributions(0xD2), BitContributions(0xD3),
           BitContributions(0xD4), BitContributions(0xD5), BitContributions(0xD6), BitContributions(0xD7),
           BitContributions(0xD8), BitContributions(0xD9), BitContributions(0xDA), BitContributions(0xDB),
           BitContributions(0xDC), BitContributions(0xDD), BitContributions(0xDE), BitContributions(0xDF)];
  }

  /** Row 0xE of the table: entries 0xE0 to 0xEF. */
  lemma RowEAgrees(i: bv8)
    requires i >> 4 == 0xE
    ensures Entry(LookupTable, i) == BitContributions(i)
  {
    assert LookupTable[0xE] == RowE;
    assert RowE
        == [BitContributions(0xE0), BitContributions(0xE1), BitContributions(0xE2), BitContributions(0xE3),
           BitContributions(0xE4), BitContributions(0xE5), BitContributions(0xE6), BitContributions(0xE7),
           BitContributions(0xE8), BitContributions(0xE9), BitContributions(0xEA), BitContributions(0xEB),
           BitContributions(0xEC), BitContributions(0xED), BitContributions(0xEE), BitContributions(0xEF)];
  }

  /** Row 0xF of the table: entries 0xF0 to 0xFF. */
  lemma RowFAgrees(i: bv8)
    requires i >> 4 == 0xF
    ensures Entry(LookupTable, i) == BitContributions(i)
  {
    assert LookupTable[0xF] == RowF;
    assert RowF
        == [BitContributions(0xF0), BitContributions(0xF1), BitContributions(0xF2), BitContributions(0xF3),
           BitContributions(0xF4), BitContributions(0xF5), BitContributions(0xF6), BitContributions(0xF7),
           BitContributions(0xF8), BitContributions(0xF9), BitContributions(0xFA), BitContributions(0xFB),
           BitContributions(0xFC), BitContributions(0xFD), BitContributions(0xFE), BitContributions(0xFF)];
  }

  /** Every entry of the driver's table is its index shifted through the register eight times. */
  lemma LookupTableEntry(i: bv8)
    ensures Entry(LookupTable, i) == Shifts(i, BitsPerByte)
  {
    if i >> 4 == 0x0 { Row0Agrees(i); }
    else if i >> 4 == 0x1 { Row1Agrees(i); }
    else if i >> 4 == 0x2 { Row2Agrees(i); }
    else if i >> 4 == 0x3 { Row3Agrees(i); }
    else if i >> 4 == 0x4 { Row4Agrees(i); }
    else if i >> 4 == 0x5 { Row5Agrees(i); }
    else if i >> 4 == 0x6 { Row6Agrees(i); }
    else if i >> 4 == 0x7 { Row7Agrees(i); }
    else if i >> 4 == 0x8 { Row8Agrees(i); }
    else if i >> 4 == 0x9 { Row9Agrees(i); }
    else if i >> 4 == 0xA { RowAAgrees(i); }
    else if i >> 4 == 0xB { RowBAgrees(i); }
    else if i >> 4 == 0xC { RowCAgrees(i); }
    else if i >> 4 == 0xD { RowDAgrees(i); }
    else if i >> 4 == 0xE { RowEAgrees(i); }
    else { RowFAgrees(i); }
    ShiftsAreBitContributions(i);
  }

  /** The driver's table is a table for this checksum. */
  lemma LookupTableIsCrcTable()
    ensures IsCrcTable(LookupTable)
  {
    forall i: bv8
      ensures Entry(LookupTable, i) == Shifts(i, BitsPerByte)
    {
      LookupTableEntry(i);
    }
  }

  /** A table for this checksum is linear over XOR. */
  lemma TableLinear(table: Table, a: bv8, b: bv8)
    requires IsCrcTable(table)
    ensures Entry(table, a ^ b) == Entry(table, a) ^ Entry(table, b)
  {
    ShiftsLinear(a, b, BitsPerByte);
  }

  /** One step of the lookup-table build: the register after feeding one byte. */
  method LookupByte(crc: bv8, b: bv8) returns (next: bv8)
    ensures next == ByteStep(crc, b)
  {
    LookupTableIsCrcTable();
    next := Entry(LookupTable, crc ^ b);
  }

  /** The lookup-table build: one table lookup per byte, high byte first. */
  method Crc8LookupTable(twoBytes: bv16) returns (crc: bv8)
    ensures crc == Crc8(twoBytes)
  {
    var data := [HighByte(twoBytes), LowByte(twoBytes)];
    crc := Init;
    for x := 0 to 2
      invariant crc == Update(Init, data[..x])
    {
      UpdateStep(data, x);
      crc := LookupByte(crc, data[x]);
    }
    assert data[..2] == data;
  }
}
