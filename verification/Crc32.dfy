/** lib/crc32.c: the table-driven, word-at-a-time CRC-32 against the bit-serial shift register. */
module Crc32 {

  type Byte = bv8
  type Word = bv32

  /** The reflected polynomial. */
  const POLY: Word := 0xedb88320

  // ---- words

  function Xor(a: Word, b: Word): Word { a ^ b }
  function Not(a: Word): Word { a ^ 0xffffffff }
  function Half(c: Word): Word { c >> 1 }
  function Down(c: Word): Word { c >> 8 }
  function Low(c: Word): Word { c & 0xff }
  function High(c: Word): Word { c & 0xffffff00 }
  function Wide(b: Byte): Word { b as Word }
  predicate Odd(c: Word) { c & 1 == 1 }

  lemma XorAssoc(a: Word, b: Word, c: Word)
    ensures Xor(a, Xor(b, c)) == Xor(Xor(a, b), c)
  {
  }

  lemma XorComm(a: Word, b: Word)
    ensures Xor(a, b) == Xor(b, a)
  {
  }

  lemma XorSelf(p: Word, b: Word)
    ensures Xor(p, p) == 0 && Xor(0, b) == b
  {
  }

  lemma XorCancel(p: Word, a: Word, b: Word)
    ensures Xor(Xor(p, a), Xor(p, b)) == Xor(a, b)
  {
    hide Xor;
    XorComm(p, a);
    XorAssoc(a, p, Xor(p, b));
    XorAssoc(p, p, b);
    XorSelf(p, b);
  }

  lemma XorZero(c: Word)
    ensures Xor(c, 0) == c
  {
  }

  lemma HalfXor(a: Word, b: Word)
    ensures Half(Xor(a, b)) == Xor(Half(a), Half(b))
  {
  }

  lemma OddXor(a: Word, b: Word)
    ensures Odd(Xor(a, b)) <==> Odd(a) != Odd(b)
  {
  }

  lemma NotTwice(c: Word)
    ensures Not(Not(c)) == c
  {
  }

  // ---- the bit-serial register (section 8 of RFC 1952)

  function BitStep(c: Word): Word {
    if Odd(c) then Xor(POLY, Half(c)) else Half(c)
  }

  function Bits(c: Word, n: nat): Word {
    if n == 0 then c else BitStep(Bits(c, n - 1))
  }

  /** One input byte: added to the low end, then eight shifts. */
  function ByteStep(c: Word, b: Byte): Word {
    Bits(Xor(c, Wide(b)), 8)
  }

  function Register(c: Word, bytes: seq<Byte>): Word {
    if bytes == [] then c else ByteStep(Register(c, bytes[..|bytes| - 1]), bytes[|bytes| - 1])
  }

  lemma RegisterSnoc(c: Word, x: seq<Byte>, b: Byte)
    ensures Register(c, x + [b]) == ByteStep(Register(c, x), b)
  {
    hide ByteStep;
    assert (x + [b])[..|x + [b]| - 1] == x;
  }

  lemma {:induction false} RegisterJoin(c: Word, x: seq<Byte>, y: seq<Byte>)
    ensures Register(Register(c, x), y) == Register(c, x + y)
  {
    hide ByteStep;
    if y == [] {
      assert x + y == x;
    } else {
      assert (x + y)[..|x + y| - 1] == x + y[..|y| - 1];
      RegisterJoin(c, x, y[..|y| - 1]);
    }
  }

  lemma RegisterNothing(c: Word)
    ensures Register(c, []) == c
  {
  }

  // ---- the register is linear

  lemma StepXor(a: Word, b: Word)
    ensures BitStep(Xor(a, b)) == Xor(BitStep(a), BitStep(b))
  {
    hide Xor, Half, Odd;
    HalfXor(a, b);
    OddXor(a, b);
    XorCancel(POLY, Half(a), Half(b));
    XorAssoc(POLY, Half(a), Half(b));
    XorAssoc(Half(a), POLY, Half(b));
    XorComm(Half(a), POLY);
  }

  /** Xor before or after the shifts makes no difference. */
  lemma {:induction false} BitsXor(a: Word, b: Word, n: nat)
    ensures Bits(Xor(a, b), n) == Xor(Bits(a, n), Bits(b, n))
  {
    hide BitStep, Xor;
    if n > 0 {
      BitsXor(a, b, n - 1);
      StepXor(Bits(a, n - 1), Bits(b, n - 1));
    }
  }

  function Shr2(x: Word): Word { x >> 2 }
  function Shr4(x: Word): Word { x >> 4 }
  function Shr6(x: Word): Word { x >> 6 }

  lemma Even0(x: Word)
    requires Low(x) == 0
    ensures !Odd(x) && !Odd(Half(x)) && Half(Half(x)) == Shr2(x)
  {
  }

  lemma Even2(x: Word)
    requires Low(x) == 0
    ensures !Odd(Shr2(x)) && !Odd(Half(Shr2(x))) && Half(Half(Shr2(x))) == Shr4(x)
  {
  }

  lemma Even4(x: Word)
    requires Low(x) == 0
    ensures !Odd(Shr4(x)) && !Odd(Half(Shr4(x))) && Half(Half(Shr4(x))) == Shr6(x)
  {
  }

  lemma Even6(x: Word)
    requires Low(x) == 0
    ensures !Odd(Shr6(x)) && !Odd(Half(Shr6(x))) && Half(Half(Shr6(x))) == Down(x)
  {
  }

  /** Two steps of an even register whose half is even too. */
  lemma TwoSteps(x: Word, n: nat)
    requires !Odd(Bits(x, n)) && !Odd(Half(Bits(x, n)))
    ensures Bits(x, n + 2) == Half(Half(Bits(x, n)))
  {
    hide Xor, Odd, Half;
    assert Bits(x, n + 1) == Half(Bits(x, n));
  }

  /** With the low byte clear, eight shifts only move the rest down. */
  lemma HighBytesMove(x: Word)
    requires Low(x) == 0
    ensures Bits(x, 8) == Down(x)
  {
    hide *;
    NoBits(x);
    Even0(x);
    TwoSteps(x, 0);
    Even2(x);
    TwoSteps(x, 2);
    Even4(x);
    TwoSteps(x, 4);
    Even6(x);
    TwoSteps(x, 6);
  }

  lemma NoBits(x: Word)
    ensures Bits(x, 0) == x
  {
  }

  lemma Halves(c: Word)
    ensures c == Xor(Low(c), High(c)) && Low(High(c)) == 0 && Down(High(c)) == Down(c)
  {
  }

  /** Eight shifts act on the low byte through the table and move the rest down. */
  lemma LowByteDecides(c: Word)
    ensures Bits(c, 8) == Xor(Bits(Low(c), 8), Down(c))
  {
    hide *;
    Halves(c);
    BitsXor(Low(c), High(c), 8);
    HighBytesMove(High(c));
  }

  // ---- the table

  /** The place of a byte value in the table. */
  function Index(i: Word): (n: nat)
    requires i <= 255
    ensures n < 256
  {
    i as nat
  }

  ghost predicate IsTable(table: seq<Word>) {
    |table| == 256 && forall i: Word | i <= 255 :: table[Index(i)] == Bits(i, 8)
  }

  /** The first entries of the table. */
  ghost predicate Filled(table: seq<Word>) {
    forall i: Word | i <= 255 && Index(i) < |table| :: table[Index(i)] == Bits(i, 8)
  }

  /** make_crc_table. */
  method MakeTable() returns (table: seq<Word>)
    ensures IsTable(table)
  {
    hide Bits, Xor, Odd, Half, Filled;
    var poly := MakePoly();
    table := [];
    NothingFilled();
    var i: Word := 0;
    for n := 0 to 256
      invariant |table| == n == i as nat && Filled(table)
    {
      ByteIndex(i);
      var c := i;
      NoBits(i);
      for k := 0 to 8
        invariant c == Bits(i, k)
      {
        OneBit(i, k);
        c := if Odd(c) then Xor(poly, Half(c)) else Half(c);
      }
      NextIndex(i);
      OneFilled(table, i, c);
      table, i := table + [c], i + 1;
    }
    AllFilled(table);
  }

  lemma NothingFilled()
    ensures Filled([])
  {
  }

  lemma AllFilled(table: seq<Word>)
    requires |table| == 256 && Filled(table)
    ensures IsTable(table)
  {
    hide Bits;
  }

  lemma OneFilled(table: seq<Word>, i: Word, c: Word)
    requires i <= 255 && |table| == i as nat && Filled(table) && c == Bits(i, 8)
    ensures Filled(table + [c])
  {
    hide Bits;
    forall j: Word | j <= 255 && Index(j) < |table| + 1 ensures (table + [c])[Index(j)] == Bits(j, 8) {
      if Index(j) == |table| { SameIndex(i, j); }
    }
  }

  lemma SameIndex(i: Word, j: Word)
    requires i <= 255 && j <= 255 && i as nat == j as nat
    ensures i == j
  {
    WordOfIndex(i);
    WordOfIndex(j);
  }

  lemma WordOfIndex(i: Word)
    requires i <= 255
    ensures (i as nat) as Word == i
  {
  }

  lemma ByteIndex(i: Word)
    requires i as nat < 256
    ensures i <= 255
  {
  }

  lemma NextIndex(i: Word)
    requires i <= 255
    ensures (i + 1) as nat == i as nat + 1
  {
  }

  lemma OneBit(c: Word, k: nat)
    ensures Bits(c, k + 1) == BitStep(Bits(c, k))
  {
  }

  /** The polynomial as make_crc_table assembles it, one bit for each exponent. */
  method MakePoly() returns (poly: Word)
    ensures poly == POLY
  {
    poly := (1 << 31) | (1 << 30) | (1 << 29) | (1 << 27) | (1 << 26) | (1 << 24) | (1 << 23)
          | (1 << 21) | (1 << 20) | (1 << 19) | (1 << 15) | (1 << 9) | (1 << 8) | (1 << 5);
  }

  lemma LowBits(c: Word)
    ensures Low(c) <= 255
  {
  }

  /** DO_CRC: a table lookup on the low byte. */
  function DoCrc(table: seq<Word>, c: Word, x: Word): Word
    requires |table| == 256
  {
    LowBits(Xor(c, x));
    Xor(table[Index(Low(Xor(c, x)))], Down(c))
  }

  lemma SameTop(c: Word, b: Byte)
    ensures Down(Xor(c, Wide(b))) == Down(c)
  {
  }

  /** One lookup is one byte of the shift register. */
  lemma LookupIsByte(table: seq<Word>, c: Word, b: Byte)
    requires IsTable(table)
    ensures DoCrc(table, c, Wide(b)) == ByteStep(c, b)
  {
    hide Bits, Xor, Low, Down, Wide;
    var y := Xor(c, Wide(b));
    LowBits(y);
    SameTop(c, b);
    LowByteDecides(y);
  }

  /** A lookup with nothing to add is eight shifts. */
  lemma LookupIsShift(table: seq<Word>, c: Word)
    requires IsTable(table)
    ensures DoCrc(table, c, 0) == Bits(c, 8)
  {
    hide Bits, Xor, Low, Down;
    XorZero(c);
    LowBits(c);
    LowByteDecides(c);
  }

  // ---- a word at a time

  /** A little-endian 32-bit load. */
  function Load(b: seq<Byte>): Word
    requires |b| == 4
  {
    Wide(b[0]) | (Wide(b[1]) << 8) | (Wide(b[2]) << 16) | (Wide(b[3]) << 24)
  }

  /** A register whose upper bytes were xored in advance shifts them down unchanged. */
  lemma AheadOfTime(c: Word, hi: Word)
    requires Low(hi) == 0
    ensures Bits(Xor(c, hi), 8) == Xor(Bits(c, 8), Down(hi))
  {
    hide *;
    BitsXor(c, hi, 8);
    HighBytesMove(hi);
  }

  function High3(x1: Word, x2: Word, x3: Word): Word { (x1 << 8) | (x2 << 16) | (x3 << 24) }
  function High2(x2: Word, x3: Word): Word { (x2 << 8) | (x3 << 16) }
  function High1(x3: Word): Word { x3 << 8 }

  lemma LoadParts(b: seq<Byte>)
    requires |b| == 4
    ensures Load(b) == Xor(Wide(b[0]), High3(Wide(b[1]), Wide(b[2]), Wide(b[3])))
  {
  }

  lemma Parts3(b1: Byte, b2: Byte, b3: Byte)
    ensures Low(High3(Wide(b1), Wide(b2), Wide(b3))) == 0
    ensures Down(High3(Wide(b1), Wide(b2), Wide(b3))) == Xor(Wide(b1), High2(Wide(b2), Wide(b3)))
  {
  }

  lemma Parts2(b2: Byte, b3: Byte)
    ensures Low(High2(Wide(b2), Wide(b3))) == 0
    ensures Down(High2(Wide(b2), Wide(b3))) == Xor(Wide(b2), High1(Wide(b3)))
  {
  }

  lemma Parts1(b3: Byte)
    ensures Low(High1(Wide(b3))) == 0 && Down(High1(Wide(b3))) == Wide(b3)
  {
  }

  lemma RegisterOfFour(c: Word, b: seq<Byte>)
    requires |b| == 4
    ensures Register(c, b) == ByteStep(ByteStep(ByteStep(ByteStep(c, b[0]), b[1]), b[2]), b[3])
  {
    hide ByteStep;
    assert b[..3][..2] == b[..2] && b[..2][..1] == b[..1] && b[..1][..0] == [];
    assert Register(c, b[..1]) == ByteStep(c, b[0]);
    assert Register(c, b[..2]) == ByteStep(Register(c, b[..1]), b[1]);
    assert Register(c, b[..3]) == ByteStep(Register(c, b[..2]), b[2]);
  }

  /** Xoring four bytes at once and shifting 32 times is the same as one byte after the other. */
  lemma WordIsFourBytes(c: Word, b: seq<Byte>)
    requires |b| == 4
    ensures Bits(Bits(Bits(Bits(Xor(c, Load(b)), 8), 8), 8), 8) == Register(c, b)
  {
    hide Bits, Register, Xor, Load, Wide, High3, High2, High1, Low, Down;
    var x0, x1, x2, x3 := Wide(b[0]), Wide(b[1]), Wide(b[2]), Wide(b[3]);
    var h3, h2, h1 := High3(x1, x2, x3), High2(x2, x3), High1(x3);
    LoadParts(b);
    Parts3(b[1], b[2], b[3]);
    Parts2(b[2], b[3]);
    Parts1(b[3]);
    RegisterOfFour(c, b);
    var c1 := ByteStep(c, b[0]);
    XorAssoc(c, x0, h3);
    AheadOfTime(Xor(c, x0), h3);
    var c2 := ByteStep(c1, b[1]);
    XorAssoc(c1, x1, h2);
    AheadOfTime(Xor(c1, x1), h2);
    XorAssoc(c2, x2, h1);
    AheadOfTime(Xor(c2, x2), h1);
  }

  /** Bytes one at a time, from `from` to `to`. */
  method ByBytes(table: seq<Word>, c0: Word, buf: seq<Byte>, from: nat, to: nat) returns (c: Word)
    requires IsTable(table) && from <= to <= |buf|
    ensures c == Register(c0, buf[from..to])
  {
    hide Bits, Register, DoCrc, ByteStep, Wide;
    c := c0;
    RegisterNothing(c0);
    assert buf[from..from] == [];
    for p := from to to
      invariant c == Register(c0, buf[from..p])
    {
      LookupIsByte(table, c, buf[p]);
      RegisterSnoc(c0, buf[from..p], buf[p]);
      assert buf[from..p] + [buf[p]] == buf[from..p + 1];
      c := DoCrc(table, c, Wide(buf[p]));
    }
  }

  /** Words from `from` on: xor a word in, then four lookups with nothing to add. */
  method ByWords(table: seq<Word>, c0: Word, buf: seq<Byte>, from: nat, words: nat) returns (c: Word)
    requires IsTable(table) && from + 4 * words <= |buf|
    ensures c == Register(c0, buf[from..from + 4 * words])
  {
    hide Bits, Register, Load, Xor;
    c := c0;
    RegisterNothing(c0);
    assert buf[from..from + 4 * 0] == [];
    for i := 0 to words
      invariant c == Register(c0, buf[from..from + 4 * i])
    {
      var b := buf[from + 4 * i..from + 4 * i + 4];
      WordIsFourBytes(c, b);
      RegisterJoin(c0, buf[from..from + 4 * i], b);
      assert buf[from..from + 4 * i] + b == buf[from..from + 4 * (i + 1)];
      c := FourLookups(table, Xor(c, Load(b)));
    }
  }

  method FourLookups(table: seq<Word>, c0: Word) returns (c: Word)
    requires IsTable(table)
    ensures c == Bits(Bits(Bits(Bits(c0, 8), 8), 8), 8)
  {
    hide Bits, DoCrc;
    LookupIsShift(table, c0);
    c := DoCrc(table, c0, 0);
    LookupIsShift(table, c);
    c := DoCrc(table, c, 0);
    LookupIsShift(table, c);
    c := DoCrc(table, c, 0);
    LookupIsShift(table, c);
    c := DoCrc(table, c, 0);
  }

  /**
    crc32_no_comp for a buffer at address `addr`: bytes up to a word boundary, whole words, the rest;
    whatever the alignment and the length, it is the shift register fed with the buffer.
   */
  method Crc32NoComp(table: seq<Word>, crc: Word, addr: nat, buf: seq<Byte>) returns (c: Word)
    requires IsTable(table)
    ensures c == Register(crc, buf)
  {
    hide Register, IsTable;
    var lead := if addr % 4 == 0 then 0 else 4 - addr % 4;
    if lead > |buf| { lead := |buf|; }
    c := ByBytes(table, crc, buf, 0, lead);
    var words := (|buf| - lead) / 4;
    var tail := lead + 4 * words;
    c := ByWords(table, c, buf, lead, words);
    RegisterJoin(crc, buf[0..lead], buf[lead..tail]);
    assert buf[0..lead] + buf[lead..tail] == buf[..tail];
    c := ByBytes(table, c, buf, tail, |buf|);
    RegisterJoin(crc, buf[..tail], buf[tail..|buf|]);
    assert buf[..tail] + buf[tail..|buf|] == buf;
  }

  /** crc32: the register complemented before and after. */
  function Crc(crc: Word, buf: seq<Byte>): Word {
    Not(Register(Not(crc), buf))
  }

  method Crc32Whole(table: seq<Word>, crc: Word, addr: nat, buf: seq<Byte>) returns (c: Word)
    requires IsTable(table)
    ensures c == Crc(crc, buf)
  {
    hide Register, IsTable, Not;
    c := Crc32NoComp(table, Not(crc), addr, buf);
    c := Not(c);
  }

  /** The CRC of a continued buffer continues from the CRC of the first part. */
  lemma CrcChains(crc: Word, x: seq<Byte>, y: seq<Byte>)
    ensures Crc(Crc(crc, x), y) == Crc(crc, x + y)
  {
    hide Register, Not;
    RegisterJoin(Not(crc), x, y);
    NotTwice(Register(Not(crc), x));
  }

  lemma CrcNothing(crc: Word)
    ensures Crc(crc, []) == crc
  {
    RegisterNothing(Not(crc));
    NotTwice(crc);
  }

  /** crc32_wd with a watchdog: chunks of any positive size give the CRC of the whole. */
  method Crc32Wd(table: seq<Word>, crc: Word, addr: nat, buf: seq<Byte>, chunkSize: nat) returns (c: Word)
    requires IsTable(table) && chunkSize > 0
    ensures c == Crc(crc, buf)
  {
    hide IsTable, Crc;
    c := crc;
    var curr := 0;
    CrcNothing(crc);
    assert buf[..0] == [];
    while curr < |buf|
      invariant 0 <= curr <= |buf| && c == Crc(crc, buf[..curr])
    {
      var chunk := if |buf| - curr > chunkSize then chunkSize else |buf| - curr;
      CrcChains(crc, buf[..curr], buf[curr..curr + chunk]);
      assert buf[..curr] + buf[curr..curr + chunk] == buf[..curr + chunk];
      c := Crc32Whole(table, c, addr + curr, buf[curr..curr + chunk]);
      curr := curr + chunk;
    }
    assert buf[..|buf|] == buf;
  }
}
