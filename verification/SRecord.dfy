/** The S-record writer of cmd/load.c: memory as S3 records of up to 16 bytes. */
module SRecord {
  import opened Base

  const BYTES_PER_RECORD: nat := 16
  const HEADER: string := "S0030000FC\n"
  const TRAILER: string := "S70500000000FA\n"

  /** One data record; `length` counts the address, data and checksum bytes. */
  datatype Record = Record(length: Byte, address: nat, data: seq<Byte>, checksum: Byte)

  function Total(b: seq<Byte>): nat {
    if b == [] then 0 else Total(b[..|b| - 1]) + b[|b| - 1]
  }

  function AddressBytes(a: nat): (b: seq<Byte>)
    ensures |b| == 4
  {
    [a / 0x100_0000 % 256, a / 0x1_0000 % 256, a / 0x100 % 256, a % 256]
  }

  /** The bytes a record carries on the line, in order. */
  function Payload(r: Record): seq<Byte> {
    [r.length] + AddressBytes(r.address) + r.data + [r.checksum]
  }

  // ---- text

  function HexDigit(d: nat): char
    requires d < 16
  {
    "0123456789ABCDEF"[d]
  }

  function HexText(b: seq<Byte>): string {
    if b == [] then "" else HexText(b[..|b| - 1]) + [HexDigit(b[|b| - 1] / 16), HexDigit(b[|b| - 1] % 16)]
  }

  function Text(r: Record): string {
    "S3" + HexText(Payload(r)) + "\n"
  }

  function DigitValue(c: char): nat {
    if '0' <= c <= '9' then c as int - '0' as int else if 'A' <= c <= 'F' then c as int - 'A' as int + 10 else 0
  }

  /** What a reader makes of hexadecimal text: a byte for every two digits. */
  function ReadHex(s: string): seq<Byte> {
    if |s| < 2 then []
    else ReadHex(s[..|s| - 2]) + [(DigitValue(s[|s| - 2]) * 16 + DigitValue(s[|s| - 1])) % 256]
  }

  lemma DigitReadsBack(d: nat)
    requires d < 16
    ensures DigitValue(HexDigit(d)) == d
  {
  }

  /** The last byte of a text. */
  lemma LastByte(s: string, x: Byte)
    ensures ReadHex(s + [HexDigit(x / 16), HexDigit(x % 16)]) == ReadHex(s) + [x]
  {
    hide DigitValue, HexDigit;
    var t := s + [HexDigit(x / 16), HexDigit(x % 16)];
    assert t[..|t| - 2] == s && t[|t| - 2] == HexDigit(x / 16) && t[|t| - 1] == HexDigit(x % 16);
    DigitReadsBack(x / 16);
    DigitReadsBack(x % 16);
  }

  lemma HexTextEnds(b: seq<Byte>)
    requires b != []
    ensures var x := b[|b| - 1]; HexText(b) == HexText(b[..|b| - 1]) + [HexDigit(x / 16), HexDigit(x % 16)]
  {
    hide HexDigit;
  }

  lemma {:induction false} ReadHexText(b: seq<Byte>)
    ensures ReadHex(HexText(b)) == b
  {
    hide ReadHex, HexText, HexDigit;
    if b == [] {
      NoHexText();
    } else {
      var front, x := b[..|b| - 1], b[|b| - 1];
      ReadHexText(front);
      HexTextEnds(b);
      LastByte(HexText(front), x);
      assert front + [x] == b;
    }
  }

  lemma NoHexText()
    ensures ReadHex(HexText([])) == []
  {
  }

  /** The reader gets back exactly the bytes of the record. */
  lemma TextReadsBack(r: Record)
    ensures |Text(r)| >= 3 && ReadHex(Text(r)[2..|Text(r)| - 1]) == Payload(r)
  {
    ReadHexText(Payload(r));
    assert Text(r)[2..|Text(r)| - 1] == HexText(Payload(r));
  }

  // ---- checksum

  lemma {:induction false} TotalJoin(x: seq<Byte>, y: seq<Byte>)
    ensures Total(x + y) == Total(x) + Total(y)
  {
    if y == [] {
      assert x + y == x;
    } else {
      assert (x + y)[..|x + y| - 1] == x + y[..|y| - 1];
      TotalJoin(x, y[..|y| - 1]);
    }
  }

  function AddressTotal(a: nat): nat {
    a % 256 + a / 0x100 % 256 + a / 0x1_0000 % 256 + a / 0x100_0000 % 256
  }

  /** The record the code builds from the data collected at an address. */
  function Build(address: nat, data: seq<Byte>): Record
    requires |data| <= BYTES_PER_RECORD
  {
    var length := 4 + |data| + 1;
    var sum := Total(data) + length % 256 + length / 256 % 256 + AddressTotal(address);
    Record(length, address, data, 255 - sum % 256)
  }

  /** All bytes of a record, its checksum among them, add up to 0xFF modulo 256. */
  lemma ChecksumCloses(address: nat, data: seq<Byte>)
    requires |data| <= BYTES_PER_RECORD
    ensures Total(Payload(Build(address, data))) % 256 == 255
  {
    hide Total;
    var r := Build(address, data);
    var a := AddressBytes(address);
    TotalJoin([r.length] + a + data, [r.checksum]);
    TotalJoin([r.length] + a, data);
    TotalJoin([r.length], a);
    TotalOne(r.length);
    TotalOne(r.checksum);
    TotalFour(a);
    assert r.length / 256 == 0;
    Complement(Total(data) + r.length + AddressTotal(address));
  }

  lemma Complement(x: nat)
    ensures (x + (255 - x % 256)) % 256 == 255
  {
  }

  lemma TotalOne(x: Byte)
    ensures Total([x]) == x
  {
    assert [x][..0] == [];
  }

  lemma TotalFour(b: seq<Byte>)
    requires |b| == 4
    ensures Total(b) == b[0] as nat + b[1] as nat + b[2] as nat + b[3] as nat
  {
    assert b[..3][..2] == b[..2] && b[..2][..1] == b[..1] && b[..1][..0] == [];
    assert Total(b[..1]) == b[0];
    assert Total(b[..2]) == b[0] as nat + b[1] as nat;
    assert Total(b[..3]) == Total(b[..2]) + b[2];
  }

  // ---- the writer

  /** A memory cell on the line: its address and its value. */
  type Cell = (nat, Byte)

  /** The cells a stretch of data stands for; addresses are 32 bits wide. */
  function Cells(address: nat, data: seq<Byte>): (c: seq<Cell>)
    ensures |c| == |data| && forall i | 0 <= i < |c| :: c[i] == ((address + i) % TWO32, data[i])
  {
    seq(|data|, i requires 0 <= i < |data| => ((address + i) % TWO32, data[i]))
  }

  function AllCells(rs: seq<Record>): seq<Cell> {
    if rs == [] then [] else AllCells(rs[..|rs| - 1]) + Cells(rs[|rs| - 1].address, rs[|rs| - 1].data)
  }

  /** The cells asked for. */
  function Wanted(mem: nat -> Byte, address: nat, count: nat): (c: seq<Cell>)
    ensures |c| == count && forall i | 0 <= i < count :: c[i] == ((address + i) % TWO32, mem((address + i) % TWO32))
  {
    seq(count, i requires 0 <= i < count => ((address + i) % TWO32, mem((address + i) % TWO32)))
  }

  ghost predicate Good(r: Record) {
    && 1 <= |r.data| <= BYTES_PER_RECORD && r.length == |r.data| + 5 && r.address < TWO32
    && Total(Payload(r)) % 256 == 255
  }

  function AllText(rs: seq<Record>): string {
    if rs == [] then "" else AllText(rs[..|rs| - 1]) + Text(rs[|rs| - 1])
  }

  /** Addresses taken relative to a moved base. */
  lemma Rebase(a0: nat, done: nat, i: nat)
    ensures ((a0 + done) % TWO32 + i) % TWO32 == (a0 + (done + i)) % TWO32
  {
  }

  /** What has been written when `done` cells are on the line and `data` is collected behind them. */
  ghost predicate Progress(mem: nat -> Byte, address0: nat, rs: seq<Record>, done: nat, address: nat, data: seq<Byte>) {
    && address == (address0 + done) % TWO32
    && AllCells(rs) == Wanted(mem, address0, done)
    && forall i | 0 <= i < |data| :: data[i] == mem((address + i) % TWO32)
  }

  lemma Flushed(mem: nat -> Byte, address0: nat, rs: seq<Record>, done: nat, address: nat, data: seq<Byte>, r: Record)
    requires Progress(mem, address0, rs, done, address, data) && r.address == address && r.data == data
    ensures Progress(mem, address0, rs + [r], done + |data|, (address + |data|) % TWO32, [])
  {
    hide AllCells;
    AppendRecord(rs, r);
    Rebase(address0, done, |data|);
    var all := Wanted(mem, address0, done) + Cells(address, data);
    forall i | 0 <= i < |all| ensures all[i] == Wanted(mem, address0, done + |data|)[i] {
      if i >= done { Rebase(address0, done, i - done); }
    }
  }

  /** save_serial: one record for every 16 bytes, the rest in a last one. */
  method SaveSerial(mem: nat -> Byte, address0: nat, count0: nat) returns (out: string, rs: seq<Record>)
    requires address0 < TWO32
    ensures out == HEADER + AllText(rs) + TRAILER
    ensures forall i | 0 <= i < |rs| :: Good(rs[i]) && (i < |rs| - 1 ==> |rs[i].data| == BYTES_PER_RECORD)
    ensures AllCells(rs) == Wanted(mem, address0, count0)
  {
    hide Total, Text, AddressBytes, Payload, AllCells, AllText;
    out, rs := HEADER, [];
    var address: nat, data: seq<Byte> := address0, [];
    ghost var done: nat := 0;
    var count := count0;
    NothingYet();
    while count > 0
      invariant done + |data| + count == count0 && |data| < BYTES_PER_RECORD && (count == 0 ==> data == [])
      invariant out == HEADER + AllText(rs)
      invariant forall i | 0 <= i < |rs| ::
                  Good(rs[i]) && (|rs[i].data| == BYTES_PER_RECORD || (i == |rs| - 1 && count == 0))
      invariant Progress(mem, address0, rs, done, address, data)
    {
      data := data + [mem((address + |data|) % TWO32)];
      count := count - 1;
      if |data| == BYTES_PER_RECORD || count == 0 {
        var r := Build(address, data);
        ChecksumCloses(address, data);
        Flushed(mem, address0, rs, done, address, data, r);
        AppendRecord(rs, r);
        out, rs := out + Text(r), rs + [r];
        address, done, data := (address + |data|) % TWO32, done + |data|, [];
      }
    }
    out := out + TRAILER;
  }

  lemma NothingYet()
    ensures AllCells([]) == [] && AllText([]) == ""
  {
  }

  lemma AppendRecord(rs: seq<Record>, r: Record)
    ensures AllText(rs + [r]) == AllText(rs) + Text(r)
    ensures AllCells(rs + [r]) == AllCells(rs) + Cells(r.address, r.data)
  {
    assert (rs + [r])[..|rs + [r]| - 1] == rs;
  }
}
