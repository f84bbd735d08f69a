/** The table literal of lib/crc32.c, which the default build uses in place of make_crc_table. */
module Crc32Table {
  import opened Crc32

  const ROW_0: seq<Word> := [
    0x00000000, 0x77073096, 0xee0e612c, 0x990951ba, 0x076dc419, 0x706af48f, 0xe963a535, 0x9e6495a3,
    0x0edb8832, 0x79dcb8a4, 0xe0d5e91e, 0x97d2d988, 0x09b64c2b, 0x7eb17cbd, 0xe7b82d07, 0x90bf1d91]
  const ROW_1: seq<Word> := [
    0x1db71064, 0x6ab020f2, 0xf3b97148, 0x84be41de, 0x1adad47d, 0x6ddde4eb, 0xf4d4b551, 0x83d385c7,
    0x136c9856, 0x646ba8c0, 0xfd62f97a, 0x8a65c9ec, 0x14015c4f, 0x63066cd9, 0xfa0f3d63, 0x8d080df5]
  const ROW_2: seq<Word> := [
    0x3b6e20c8, 0x4c69105e, 0xd56041e4, 0xa2677172, 0x3c03e4d1, 0x4b04d447, 0xd20d85fd, 0xa50ab56b,
    0x35b5a8fa, 0x42b2986c, 0xdbbbc9d6, 0xacbcf940, 0x32d86ce3, 0x45df5c75, 0xdcd60dcf, 0xabd13d59]
  const ROW_3: seq<Word> := [
    0x26d930ac, 0x51de003a, 0xc8d75180, 0xbfd06116, 0x21b4f4b5, 0x56b3c423, 0xcfba9599, 0xb8bda50f,
    0x2802b89e, 0x5f058808, 0xc60cd9b2, 0xb10be924, 0x2f6f7c87, 0x58684c11, 0xc1611dab, 0xb6662d3d]
  const ROW_4: seq<Word> := [
    0x76dc4190, 0x01db7106, 0x98d220bc, 0xefd5102a, 0x71b18589, 0x06b6b51f, 0x9fbfe4a5, 0xe8b8d433,
    0x7807c9a2, 0x0f00f934, 0x9609a88e, 0xe10e9818, 0x7f6a0dbb, 0x086d3d2d, 0x91646c97, 0xe6635c01]
  const ROW_5: seq<Word> := [
    0x6b6b51f4, 0x1c6c6162, 0x856530d8, 0xf262004e, 0x6c0695ed, 0x1b01a57b, 0x8208f4c1, 0xf50fc457,
    0x65b0d9c6, 0x12b7e950, 0x8bbeb8ea, 0xfcb9887c, 0x62dd1ddf, 0x15da2d49, 0x8cd37cf3, 0xfbd44c65]
  const ROW_6: seq<Word> := [
    0x4db26158, 0x3ab551ce, 0xa3bc0074, 0xd4bb30e2, 0x4adfa541, 0x3dd895d7, 0xa4d1c46d, 0xd3d6f4fb,
    0x4369e96a, 0x346ed9fc, 0xad678846, 0xda60b8d0, 0x44042d73, 0x33031de5, 0xaa0a4c5f, 0xdd0d7cc9]
  const ROW_7: seq<Word> := [
    0x5005713c, 0x270241aa, 0xbe0b1010, 0xc90c2086, 0x5768b525, 0x206f85b3, 0xb966d409, 0xce61e49f,
    0x5edef90e, 0x29d9c998, 0xb0d09822, 0xc7d7a8b4, 0x59b33d17, 0x2eb40d81, 0xb7bd5c3b, 0xc0ba6cad]
  const ROW_8: seq<Word> := [
    0xedb88320, 0x9abfb3b6, 0x03b6e20c, 0x74b1d29a, 0xead54739, 0x9dd277af, 0x04db2615, 0x73dc1683,
    0xe3630b12, 0x94643b84, 0x0d6d6a3e, 0x7a6a5aa8, 0xe40ecf0b, 0x9309ff9d, 0x0a00ae27, 0x7d079eb1]
  const ROW_9: seq<Word> := [
    0xf00f9344, 0x8708a3d2, 0x1e01f268, 0x6906c2fe, 0xf762575d, 0x806567cb, 0x196c3671, 0x6e6b06e7,
    0xfed41b76, 0x89d32be0, 0x10da7a5a, 0x67dd4acc, 0xf9b9df6f, 0x8ebeeff9, 0x17b7be43, 0x60b08ed5]
  const ROW_A: seq<Word> := [
    0xd6d6a3e8, 0xa1d1937e, 0x38d8c2c4, 0x4fdff252, 0xd1bb67f1, 0xa6bc5767, 0x3fb506dd, 0x48b2364b,
    0xd80d2bda, 0xaf0a1b4c, 0x36034af6, 0x41047a60, 0xdf60efc3, 0xa867df55, 0x316e8eef, 0x4669be79]
  const ROW_B: seq<Word> := [
    0xcb61b38c, 0xbc66831a, 0x256fd2a0, 0x5268e236, 0xcc0c7795, 0xbb0b4703, 0x220216b9, 0x5505262f,
    0xc5ba3bbe, 0xb2bd0b28, 0x2bb45a92, 0x5cb36a04, 0xc2d7ffa7, 0xb5d0cf31, 0x2cd99e8b, 0x5bdeae1d]
  const ROW_C: seq<Word> := [
    0x9b64c2b0, 0xec63f226, 0x756aa39c, 0x026d930a, 0x9c0906a9, 0xeb0e363f, 0x72076785, 0x05005713,
    0x95bf4a82, 0xe2b87a14, 0x7bb12bae, 0x0cb61b38, 0x92d28e9b, 0xe5d5be0d, 0x7cdcefb7, 0x0bdbdf21]
  const ROW_D: seq<Word> := [
    0x86d3d2d4, 0xf1d4e242, 0x68ddb3f8, 0x1fda836e, 0x81be16cd, 0xf6b9265b, 0x6fb077e1, 0x18b74777,
    0x88085ae6, 0xff0f6a70, 0x66063bca, 0x11010b5c, 0x8f659eff, 0xf862ae69, 0x616bffd3, 0x166ccf45]
  const ROW_E: seq<Word> := [
    0xa00ae278, 0xd70dd2ee, 0x4e048354, 0x3903b3c2, 0xa7672661, 0xd06016f7, 0x4969474d, 0x3e6e77db,
    0xaed16a4a, 0xd9d65adc, 0x40df0b66, 0x37d83bf0, 0xa9bcae53, 0xdebb9ec5, 0x47b2cf7f, 0x30b5ffe9]
  const ROW_F: seq<Word> := [
    0xbdbdf21c, 0xcabac28a, 0x53b39330, 0x24b4a3a6, 0xbad03605, 0xcdd70693, 0x54de5729, 0x23d967bf,
    0xb3667a2e, 0xc4614ab8, 0x5d681b02, 0x2a6f2b94, 0xb40bbe37, 0xc30c8ea1, 0x5a05df1b, 0x2d02ef8d]

  const ROWS: seq<seq<Word>> := [
    ROW_0, ROW_1, ROW_2, ROW_3, ROW_4, ROW_5, ROW_6, ROW_7,
    ROW_8, ROW_9, ROW_A, ROW_B, ROW_C, ROW_D, ROW_E, ROW_F]

  const LITERAL: seq<Word> := seq(256, n requires 0 <= n < 256 => ROWS[n / 16][n % 16])

  // ---- the entries at powers of two, by shifting

  lemma Powers()
    ensures Bits(0x01, 8) == 0x77073096 && Bits(0x02, 8) == 0xee0e612c
    ensures Bits(0x04, 8) == 0x076dc419 && Bits(0x08, 8) == 0x0edb8832
    ensures Bits(0x10, 8) == 0x1db71064 && Bits(0x20, 8) == 0x3b6e20c8
    ensures Bits(0x40, 8) == 0x76dc4190 && Bits(0x80, 8) == 0xedb88320
  {
    assert Bits(0x01, 2) == 0x76dc4190 && Bits(0x01, 4) == 0x1db71064;
    assert Bits(0x01, 6) == 0x76dc419;
    assert Bits(0x02, 2) == 0xedb88320 && Bits(0x02, 4) == 0x3b6e20c8;
    assert Bits(0x02, 6) == 0xedb8832;
    assert Bits(0x04, 2) == 0x1 && Bits(0x04, 4) == 0x76dc4190;
    assert Bits(0x04, 6) == 0x1db71064;
    assert Bits(0x08, 2) == 0x2 && Bits(0x08, 4) == 0xedb88320;
    assert Bits(0x08, 6) == 0x3b6e20c8;
    assert Bits(0x10, 2) == 0x4 && Bits(0x10, 4) == 0x1;
    assert Bits(0x10, 6) == 0x76dc4190;
    assert Bits(0x20, 2) == 0x8 && Bits(0x20, 4) == 0x2;
    assert Bits(0x20, 6) == 0xedb88320;
    assert Bits(0x40, 2) == 0x10 && Bits(0x40, 4) == 0x4;
    assert Bits(0x40, 6) == 0x1;
    assert Bits(0x80, 2) == 0x20 && Bits(0x80, 4) == 0x8;
    assert Bits(0x80, 6) == 0x2;
  }

  // ---- the other entries of the first row and column, by mixing

  lemma Nothing()
    ensures Bits(0, 8) == 0
  {
    assert Bits(0, 4) == 0;
  }

  lemma Mixed(a: Word, b: Word, x: Word, y: Word)
    requires x == Bits(a, 8) && y == Bits(b, 8)
    ensures Bits(Xor(a, b), 8) == Xor(x, y)
  {
    hide Bits, Xor;
    BitsXor(a, b, 8);
  }

  lemma FirstEntries()
    ensures Bits(0x00, 8) == 0x00000000
    ensures Bits(0x01, 8) == 0x77073096
    ensures Bits(0x02, 8) == 0xee0e612c
    ensures Bits(0x03, 8) == 0x990951ba
    ensures Bits(0x04, 8) == 0x076dc419
    ensures Bits(0x05, 8) == 0x706af48f
    ensures Bits(0x06, 8) == 0xe963a535
    ensures Bits(0x07, 8) == 0x9e6495a3
    ensures Bits(0x08, 8) == 0x0edb8832
    ensures Bits(0x09, 8) == 0x79dcb8a4
    ensures Bits(0x0a, 8) == 0xe0d5e91e
    ensures Bits(0x0b, 8) == 0x97d2d988
    ensures Bits(0x0c, 8) == 0x09b64c2b
    ensures Bits(0x0d, 8) == 0x7eb17cbd
    ensures Bits(0x0e, 8) == 0xe7b82d07
    ensures Bits(0x0f, 8) == 0x90bf1d91
  {
    hide Bits;
    Powers();
    Nothing();
    Mixed(0x02, 0x01, 0xee0e612c, 0x77073096);
    Mixed(0x04, 0x01, 0x076dc419, 0x77073096);
    Mixed(0x04, 0x02, 0x076dc419, 0xee0e612c);
    Mixed(0x04, 0x03, 0x076dc419, 0x990951ba);
    Mixed(0x08, 0x01, 0x0edb8832, 0x77073096);
    Mixed(0x08, 0x02, 0x0edb8832, 0xee0e612c);
    Mixed(0x08, 0x03, 0x0edb8832, 0x990951ba);
    Mixed(0x08, 0x04, 0x0edb8832, 0x076dc419);
    Mixed(0x08, 0x05, 0x0edb8832, 0x706af48f);
    Mixed(0x08, 0x06, 0x0edb8832, 0xe963a535);
    Mixed(0x08, 0x07, 0x0edb8832, 0x9e6495a3);
  }

  lemma Heads()
    ensures Bits(0x00, 8) == 0x00000000
    ensures Bits(0x10, 8) == 0x1db71064
    ensures Bits(0x20, 8) == 0x3b6e20c8
    ensures Bits(0x30, 8) == 0x26d930ac
    ensures Bits(0x40, 8) == 0x76dc4190
    ensures Bits(0x50, 8) == 0x6b6b51f4
    ensures Bits(0x60, 8) == 0x4db26158
    ensures Bits(0x70, 8) == 0x5005713c
    ensures Bits(0x80, 8) == 0xedb88320
    ensures Bits(0x90, 8) == 0xf00f9344
    ensures Bits(0xa0, 8) == 0xd6d6a3e8
    ensures Bits(0xb0, 8) == 0xcb61b38c
    ensures Bits(0xc0, 8) == 0x9b64c2b0
    ensures Bits(0xd0, 8) == 0x86d3d2d4
    ensures Bits(0xe0, 8) == 0xa00ae278
    ensures Bits(0xf0, 8) == 0xbdbdf21c
  {
    hide Bits;
    Powers();
    Nothing();
    Mixed(0x20, 0x10, 0x3b6e20c8, 0x1db71064);
    Mixed(0x40, 0x10, 0x76dc4190, 0x1db71064);
    Mixed(0x40, 0x20, 0x76dc4190, 0x3b6e20c8);
    Mixed(0x40, 0x30, 0x76dc4190, 0x26d930ac);
    Mixed(0x80, 0x10, 0xedb88320, 0x1db71064);
    Mixed(0x80, 0x20, 0xedb88320, 0x3b6e20c8);
    Mixed(0x80, 0x30, 0xedb88320, 0x26d930ac);
    Mixed(0x80, 0x40, 0xedb88320, 0x76dc4190);
    Mixed(0x80, 0x50, 0xedb88320, 0x6b6b51f4);
    Mixed(0x80, 0x60, 0xedb88320, 0x4db26158);
    Mixed(0x80, 0x70, 0xedb88320, 0x5005713c);
  }

  // ---- every row

  /** The first entry of a row, mixed with the entries of the first row. */
  ghost predicate IsRow(row: seq<Word>, h: Word) {
    |row| == 16 && row[0] == Bits(h, 8) && forall j | 0 <= j < 16 :: row[j] == Xor(row[0], ROW_0[j])
  }

  lemma Head(row: seq<Word>, h: Word, e: Word)
    requires |row| == 16 && row[0] == e && Bits(h, 8) == e
    ensures row[0] == Bits(h, 8)
  {
  }

  lemma Row0()
    ensures IsRow(ROW_0, 0x00)
  {
    hide Bits;
    Heads();
    Head(ROW_0, 0x00, 0x00000000);
  }

  lemma Row1()
    ensures IsRow(ROW_1, 0x10)
  {
    hide Bits;
    Heads();
    Head(ROW_1, 0x10, 0x1db71064);
  }

  lemma Row2()
    ensures IsRow(ROW_2, 0x20)
  {
    hide Bits;
    Heads();
    Head(ROW_2, 0x20, 0x3b6e20c8);
  }

  lemma Row3()
    ensures IsRow(ROW_3, 0x30)
  {
    hide Bits;
    Heads();
    Head(ROW_3, 0x30, 0x26d930ac);
  }

  lemma Row4()
    ensures IsRow(ROW_4, 0x40)
  {
    hide Bits;
    Heads();
    Head(ROW_4, 0x40, 0x76dc4190);
  }

  lemma Row5()
    ensures IsRow(ROW_5, 0x50)
  {
    hide Bits;
    Heads();
    Head(ROW_5, 0x50, 0x6b6b51f4);
  }

  lemma Row6()
    ensures IsRow(ROW_6, 0x60)
  {
    hide Bits;
    Heads();
    Head(ROW_6, 0x60, 0x4db26158);
  }

  lemma Row7()
    ensures IsRow(ROW_7, 0x70)
  {
    hide Bits;
    Heads();
    Head(ROW_7, 0x70, 0x5005713c);
  }

  lemma Row8()
    ensures IsRow(ROW_8, 0x80)
  {
    hide Bits;
    Heads();
    Head(ROW_8, 0x80, 0xedb88320);
  }

  lemma Row9()
    ensures IsRow(ROW_9, 0x90)
  {
    hide Bits;
    Heads();
    Head(ROW_9, 0x90, 0xf00f9344);
  }

  lemma RowA()
    ensures IsRow(ROW_A, 0xa0)
  {
    hide Bits;
    Heads();
    Head(ROW_A, 0xa0, 0xd6d6a3e8);
  }

  lemma RowB()
    ensures IsRow(ROW_B, 0xb0)
  {
    hide Bits;
    Heads();
    Head(ROW_B, 0xb0, 0xcb61b38c);
  }

  lemma RowC()
    ensures IsRow(ROW_C, 0xc0)
  {
    hide Bits;
    Heads();
    Head(ROW_C, 0xc0, 0x9b64c2b0);
  }

  lemma RowD()
    ensures IsRow(ROW_D, 0xd0)
  {
    hide Bits;
    Heads();
    Head(ROW_D, 0xd0, 0x86d3d2d4);
  }

  lemma RowE()
    ensures IsRow(ROW_E, 0xe0)
  {
    hide Bits;
    Heads();
    Head(ROW_E, 0xe0, 0xa00ae278);
  }

  lemma RowF()
    ensures IsRow(ROW_F, 0xf0)
  {
    hide Bits;
    Heads();
    Head(ROW_F, 0xf0, 0xbdbdf21c);
  }

  /** Row `k` holds the entries from 16 times `k` on. */
  lemma RowAt(k: Word)
    requires k <= 15
    ensures k <= 255 && Index(k) < 16 && IsRow(ROWS[Index(k)], k << 4)
  {
    hide IsRow, Bits;
    if k == 0 {
      Row0();
    } else if k == 1 {
      Row1();
    } else if k == 2 {
      Row2();
    } else if k == 3 {
      Row3();
    } else if k == 4 {
      Row4();
    } else if k == 5 {
      Row5();
    } else if k == 6 {
      Row6();
    } else if k == 7 {
      Row7();
    } else if k == 8 {
      Row8();
    } else if k == 9 {
      Row9();
    } else if k == 10 {
      RowA();
    } else if k == 11 {
      RowB();
    } else if k == 12 {
      RowC();
    } else if k == 13 {
      RowD();
    } else if k == 14 {
      RowE();
    } else {
      RowF();
    }
  }

  lemma FirstRow(j: Word)
    requires j <= 15
    ensures j <= 255 && Index(j) < 16 && ROW_0[Index(j)] == Bits(j, 8)
  {
    hide Bits;
    FirstEntries();
    assert j in {0, 1, 2, 3, 4, 5, 6, 7, 8, 9, 10, 11, 12, 13, 14, 15};
  }

  lemma Nibbles(i: Word)
    requires i <= 255
    ensures i >> 4 <= 15 && i & 0xf <= 15 && Index(i) == 16 * Index(i >> 4) + Index(i & 0xf)
    ensures i == Xor((i >> 4) << 4, i & 0xf)
  {
  }

  /** The literal is the table make_crc_table makes. */
  lemma LiteralIsTable()
    ensures IsTable(LITERAL)
  {
    hide Bits;
    forall i: Word | i <= 255 ensures LITERAL[Index(i)] == Bits(i, 8) { LiteralAt(i); }
  }

  lemma LiteralAt(i: Word)
    requires i <= 255
    ensures LITERAL[Index(i)] == Bits(i, 8)
  {
    hide Bits, Xor, Index;
    Nibbles(i);
    var k, j := i >> 4, i & 0xf;
    RowAt(k);
    FirstRow(j);
    Mixed(k << 4, j, ROWS[Index(k)][0], ROW_0[Index(j)]);
    Place(Index(i), Index(k), Index(j));
  }

  lemma Place(n: nat, k: nat, j: nat)
    requires n == 16 * k + j && k < 16 && j < 16
    ensures n < 256 && LITERAL[n] == ROWS[k][j]
  {
    assert n / 16 == k && n % 16 == j;
  }

  /** crc32_wd with the literal: the CRC of the buffer, whatever the alignment, the length and the chunk size. */
  method CrcByLiteral(crc: Word, addr: nat, buf: seq<Byte>, chunkSize: nat) returns (c: Word)
    requires chunkSize > 0
    ensures c == Crc(crc, buf)
  {
    hide IsTable, Crc;
    LiteralIsTable();
    c := Crc32Wd(LITERAL, crc, addr, buf, chunkSize);
  }
}
