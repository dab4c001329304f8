/**
 The literal CRC table of the Echo session block (fireworks_session_block.cpp), row by row,
 and the proof that it is the table the BeBoB reader generates.
 */
module EchoTable {
  import opened Crc32
  import opened Bcd

  const ROW_0: seq<bv32> := [
    0x00000000, 0x77073096, 0xEE0E612C, 0x990951BA,
    0x076DC419, 0x706AF48F, 0xE963A535, 0x9E6495A3,
    0x0EDB8832, 0x79DCB8A4, 0xE0D5E91E, 0x97D2D988,
    0x09B64C2B, 0x7EB17CBD, 0xE7B82D07, 0x90BF1D91
  ]

  const ROW_1: seq<bv32> := [
    0x1DB71064, 0x6AB020F2, 0xF3B97148, 0x84BE41DE,
    0x1ADAD47D, 0x6DDDE4EB, 0xF4D4B551, 0x83D385C7,
    0x136C9856, 0x646BA8C0, 0xFD62F97A, 0x8A65C9EC,
    0x14015C4F, 0x63066CD9, 0xFA0F3D63, 0x8D080DF5
  ]

  const ROW_2: seq<bv32> := [
    0x3B6E20C8, 0x4C69105E, 0xD56041E4, 0xA2677172,
    0x3C03E4D1, 0x4B04D447, 0xD20D85FD, 0xA50AB56B,
    0x35B5A8FA, 0x42B2986C, 0xDBBBC9D6, 0xACBCF940,
    0x32D86CE3, 0x45DF5C75, 0xDCD60DCF, 0xABD13D59
  ]

  const ROW_3: seq<bv32> := [
    0x26D930AC, 0x51DE003A, 0xC8D75180, 0xBFD06116,
    0x21B4F4B5, 0x56B3C423, 0xCFBA9599, 0xB8BDA50F,
    0x2802B89E, 0x5F058808, 0xC60CD9B2, 0xB10BE924,
    0x2F6F7C87, 0x58684C11, 0xC1611DAB, 0xB6662D3D
  ]

  const ROW_4: seq<bv32> := [
    0x76DC4190, 0x01DB7106, 0x98D220BC, 0xEFD5102A,
    0x71B18589, 0x06B6B51F, 0x9FBFE4A5, 0xE8B8D433,
    0x7807C9A2, 0x0F00F934, 0x9609A88E, 0xE10E9818,
    0x7F6A0DBB, 0x086D3D2D, 0x91646C97, 0xE6635C01
  ]

  const ROW_5: seq<bv32> := [
    0x6B6B51F4, 0x1C6C6162, 0x856530D8, 0xF262004E,
    0x6C0695ED, 0x1B01A57B, 0x8208F4C1, 0xF50FC457,
    0x65B0D9C6, 0x12B7E950, 0x8BBEB8EA, 0xFCB9887C,
    0x62DD1DDF, 0x15DA2D49, 0x8CD37CF3, 0xFBD44C65
  ]

  const ROW_6: seq<bv32> := [
    0x4DB26158, 0x3AB551CE, 0xA3BC0074, 0xD4BB30E2,
    0x4ADFA541, 0x3DD895D7, 0xA4D1C46D, 0xD3D6F4FB,
    0x4369E96A, 0x346ED9FC, 0xAD678846, 0xDA60B8D0,
    0x44042D73, 0x33031DE5, 0xAA0A4C5F, 0xDD0D7CC9
  ]

  const ROW_7: seq<bv32> := [
    0x5005713C, 0x270241AA, 0xBE0B1010, 0xC90C2086,
    0x5768B525, 0x206F85B3, 0xB966D409, 0xCE61E49F,
    0x5EDEF90E, 0x29D9C998, 0xB0D09822, 0xC7D7A8B4,
    0x59B33D17, 0x2EB40D81, 0xB7BD5C3B, 0xC0BA6CAD
  ]

  const ROW_8: seq<bv32> := [
    0xEDB88320, 0x9ABFB3B6, 0x03B6E20C, 0x74B1D29A,
    0xEAD54739, 0x9DD277AF, 0x04DB2615, 0x73DC1683,
    0xE3630B12, 0x94643B84, 0x0D6D6A3E, 0x7A6A5AA8,
    0xE40ECF0B, 0x9309FF9D, 0x0A00AE27, 0x7D079EB1
  ]

  const ROW_9: seq<bv32> := [
    0xF00F9344, 0x8708A3D2, 0x1E01F268, 0x6906C2FE,
    0xF762575D, 0x806567CB, 0x196C3671, 0x6E6B06E7,
    0xFED41B76, 0x89D32BE0, 0x10DA7A5A, 0x67DD4ACC,
    0xF9B9DF6F, 0x8EBEEFF9, 0x17B7BE43, 0x60B08ED5
  ]

  const ROW_A: seq<bv32> := [
    0xD6D6A3E8, 0xA1D1937E, 0x38D8C2C4, 0x4FDFF252,
    0xD1BB67F1, 0xA6BC5767, 0x3FB506DD, 0x48B2364B,
    0xD80D2BDA, 0xAF0A1B4C, 0x36034AF6, 0x41047A60,
    0xDF60EFC3, 0xA867DF55, 0x316E8EEF, 0x4669BE79
  ]

  const ROW_B: seq<bv32> := [
    0xCB61B38C, 0xBC66831A, 0x256FD2A0, 0x5268E236,
    0xCC0C7795, 0xBB0B4703, 0x220216B9, 0x5505262F,
    0xC5BA3BBE, 0xB2BD0B28, 0x2BB45A92, 0x5CB36A04,
    0xC2D7FFA7, 0xB5D0CF31, 0x2CD99E8B, 0x5BDEAE1D
  ]

  const ROW_C: seq<bv32> := [
    0x9B64C2B0, 0xEC63F226, 0x756AA39C, 0x026D930A,
    0x9C0906A9, 0xEB0E363F, 0x72076785, 0x05005713,
    0x95BF4A82, 0xE2B87A14, 0x7BB12BAE, 0x0CB61B38,
    0x92D28E9B, 0xE5D5BE0D, 0x7CDCEFB7, 0x0BDBDF21
  ]

  const ROW_D: seq<bv32> := [
    0x86D3D2D4, 0xF1D4E242, 0x68DDB3F8, 0x1FDA836E,
    0x81BE16CD, 0xF6B9265B, 0x6FB077E1, 0x18B74777,
    0x88085AE6, 0xFF0F6A70, 0x66063BCA, 0x11010B5C,
    0x8F659EFF, 0xF862AE69, 0x616BFFD3, 0x166CCF45
  ]

  const ROW_E: seq<bv32> := [
    0xA00AE278, 0xD70DD2EE, 0x4E048354, 0x3903B3C2,
    0xA7672661, 0xD06016F7, 0x4969474D, 0x3E6E77DB,
    0xAED16A4A, 0xD9D65ADC, 0x40DF0B66, 0x37D83BF0,
    0xA9BCAE53, 0xDEBB9EC5, 0x47B2CF7F, 0x30B5FFE9
  ]

  const ROW_F: seq<bv32> := [
    0xBDBDF21C, 0xCABAC28A, 0x53B39330, 0x24B4A3A6,
    0xBAD03605, 0xCDD70693, 0x54DE5729, 0x23D967BF,
    0xB3667A2E, 0xC4614AB8, 0x5D681B02, 0x2A6F2B94,
    0xB40BBE37, 0xC30C8EA1, 0x5A05DF1B, 0x2D02EF8D
  ]

  const QUARTER_0: seq<bv32> := ROW_0 + ROW_1 + ROW_2 + ROW_3

  const QUARTER_1: seq<bv32> := ROW_4 + ROW_5 + ROW_6 + ROW_7

  const QUARTER_2: seq<bv32> := ROW_8 + ROW_9 + ROW_A + ROW_B

  const QUARTER_3: seq<bv32> := ROW_C + ROW_D + ROW_E + ROW_F

  const ECHO_SESSION_CRC_TABLE: seq<bv32> := QUARTER_0 + QUARTER_1 + QUARTER_2 + QUARTER_3

  /** Row number base / 16 of the table, computed. */
  function ComputedRow(base: bv8): seq<bv32> {
    [TableEntry(base), TableEntry(base + 1), TableEntry(base + 2), TableEntry(base + 3),
     TableEntry(base + 4), TableEntry(base + 5), TableEntry(base + 6), TableEntry(base + 7),
     TableEntry(base + 8), TableEntry(base + 9), TableEntry(base + 10), TableEntry(base + 11),
     TableEntry(base + 12), TableEntry(base + 13), TableEntry(base + 14), TableEntry(base + 15)]
  }

  lemma Rows0And1()
    ensures ROW_0 == ComputedRow(0x00) && ROW_1 == ComputedRow(0x10)
  {}

  lemma Rows2And3()
    ensures ROW_2 == ComputedRow(0x20) && ROW_3 == ComputedRow(0x30)
  {}

  lemma Rows4And5()
    ensures ROW_4 == ComputedRow(0x40) && ROW_5 == ComputedRow(0x50)
  {}

  lemma Rows6And7()
    ensures ROW_6 == ComputedRow(0x60) && ROW_7 == ComputedRow(0x70)
  {}

  lemma Rows8And9()
    ensures ROW_8 == ComputedRow(0x80) && ROW_9 == ComputedRow(0x90)
  {}

  lemma RowsAAndB()
    ensures ROW_A == ComputedRow(0xA0) && ROW_B == ComputedRow(0xB0)
  {}

  lemma RowsCAndD()
    ensures ROW_C == ComputedRow(0xC0) && ROW_D == ComputedRow(0xD0)
  {}

  lemma RowsEAndF()
    ensures ROW_E == ComputedRow(0xE0) && ROW_F == ComputedRow(0xF0)
  {}

  lemma ComputedRowAt(base: bv8, b: bv8, k: int)
    requires base & 0x0F == 0 && b & 0xF0 == base && k == (b & 0x0F) as int
    ensures 0 <= k < 16 && ComputedRow(base)[k] == TableEntry(b)
  {
    hide TableEntry;
    var n := b & 0x0F;
    assert b == base + n;
    if n < 8 {
      if n < 4 { if n < 2 { if n < 1 {} else {} } else { if n < 3 {} else {} } }
      else { if n < 6 { if n < 5 {} else {} } else { if n < 7 {} else {} } }
    } else {
      if n < 12 { if n < 10 { if n < 9 {} else {} } else { if n < 11 {} else {} } }
      else { if n < 14 { if n < 13 {} else {} } else { if n < 15 {} else {} } }
    }
  }

  /** The place of a byte in the table: its row, and its column in the row. */
  lemma RowAndColumn(b: bv8, base: bv8)
    requires b & 0xF0 == base
    ensures b as int == base as int + (b & 0x0F) as int
  {}

  lemma EntryInRow(row: seq<bv32>, b: bv8, base: bv8)
    requires base & 0x0F == 0 && b & 0xF0 == base && row == ComputedRow(base)
    ensures 0 <= b as int - base as int < |row| && row[b as int - base as int] == TableEntry(b)
  {
    hide TableEntry;
    RowAndColumn(b, base);
    ComputedRowAt(base, b, (b & 0x0F) as int);
  }

  lemma EntryInQuarter0(b: bv8)
    requires b & 0xC0 == 0x00
    ensures 0 <= b as int - 0 < |QUARTER_0| && QUARTER_0[b as int - 0] == TableEntry(b)
  {
    hide TableEntry, ComputedRow;
    Rows0And1();
    Rows2And3();
    var base := b & 0xF0;
    if base == 0x00 {
      EntryInRow(ROW_0, b, 0x00);
    } else if base == 0x10 {
      EntryInRow(ROW_1, b, 0x10);
    } else if base == 0x20 {
      EntryInRow(ROW_2, b, 0x20);
    } else {
      EntryInRow(ROW_3, b, 0x30);
    }
  }

  lemma EntryInQuarter1(b: bv8)
    requires b & 0xC0 == 0x40
    ensures 0 <= b as int - 64 < |QUARTER_1| && QUARTER_1[b as int - 64] == TableEntry(b)
  {
    hide TableEntry, ComputedRow;
    Rows4And5();
    Rows6And7();
    var base := b & 0xF0;
    if base == 0x40 {
      EntryInRow(ROW_4, b, 0x40);
    } else if base == 0x50 {
      EntryInRow(ROW_5, b, 0x50);
    } else if base == 0x60 {
      EntryInRow(ROW_6, b, 0x60);
    } else {
      EntryInRow(ROW_7, b, 0x70);
    }
  }

  lemma EntryInQuarter2(b: bv8)
    requires b & 0xC0 == 0x80
    ensures 0 <= b as int - 128 < |QUARTER_2| && QUARTER_2[b as int - 128] == TableEntry(b)
  {
    hide TableEntry, ComputedRow;
    Rows8And9();
    RowsAAndB();
    var base := b & 0xF0;
    if base == 0x80 {
      EntryInRow(ROW_8, b, 0x80);
    } else if base == 0x90 {
      EntryInRow(ROW_9, b, 0x90);
    } else if base == 0xA0 {
      EntryInRow(ROW_A, b, 0xA0);
    } else {
      EntryInRow(ROW_B, b, 0xB0);
    }
  }

  lemma EntryInQuarter3(b: bv8)
    requires b & 0xC0 == 0xC0
    ensures 0 <= b as int - 192 < |QUARTER_3| && QUARTER_3[b as int - 192] == TableEntry(b)
  {
    hide TableEntry, ComputedRow;
    RowsCAndD();
    RowsEAndF();
    var base := b & 0xF0;
    if base == 0xC0 {
      EntryInRow(ROW_C, b, 0xC0);
    } else if base == 0xD0 {
      EntryInRow(ROW_D, b, 0xD0);
    } else if base == 0xE0 {
      EntryInRow(ROW_E, b, 0xE0);
    } else {
      EntryInRow(ROW_F, b, 0xF0);
    }
  }

  lemma QuarterLengths()
    ensures |QUARTER_0| == |QUARTER_1| == |QUARTER_2| == |QUARTER_3| == 64
  {}

  lemma InConcatenation(table: seq<bv32>, p: seq<bv32>, q: seq<bv32>, r: seq<bv32>, s: seq<bv32>, i: nat)
    requires table == p + q + r + s && |p| == |q| == |r| == |s| == 64 && i < 256
    ensures table[i] ==
            if i < 64 then p[i] else if i < 128 then q[i - 64] else if i < 192 then r[i - 128] else s[i - 192]
  {}

  lemma EchoEntry(table: seq<bv32>, b: bv8)
    requires table == ECHO_SESSION_CRC_TABLE && |table| == 256
    ensures table[b as int] == TableEntry(b)
  {
    hide TableEntry;
    QuarterLengths();
    InConcatenation(table, QUARTER_0, QUARTER_1, QUARTER_2, QUARTER_3, b as int);
    var quarter := b & 0xC0;
    if quarter == 0x00 {
      EntryInQuarter0(b);
    } else if quarter == 0x40 {
      EntryInQuarter1(b);
    } else if quarter == 0x80 {
      EntryInQuarter2(b);
    } else {
      EntryInQuarter3(b);
    }
  }

  /** The literal table is the CRC-32 table, entry by entry, hence the one initCRC32Table generates. */
  lemma EchoTableIsCrcTable()
    ensures IsCrcTable(ECHO_SESSION_CRC_TABLE)
  {
    hide TableEntry;
    QuarterLengths();
    var table := ECHO_SESSION_CRC_TABLE;
    forall b: bv8 ensures table[b as int] == TableEntry(b) {
      EchoEntry(table, b);
    }
  }

  /** The BeBoB reader's generated table and Echo's literal table are the same 256 words. */
  lemma GeneratedTableIsEchoTable(reader: ImageReader)
    requires reader.Valid()
    ensures reader.crc32Table[..] == ECHO_SESSION_CRC_TABLE
  {
    hide IsCrcTable;
    EchoTableIsCrcTable();
    CrcTableUnique(reader.crc32Table[..], ECHO_SESSION_CRC_TABLE);
  }
}
