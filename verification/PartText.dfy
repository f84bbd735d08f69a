/** Partition definitions of cmd/mtdparts.c: their text, their parser and the validity check. */
module PartText {
  import opened Base
  import opened NumText

  const SIZE_REMAINING: u64 := 0xFFFF_FFFF_FFFF_FFFF
  const OFFSET_NOT_SPECIFIED: u64 := 0xFFFF_FFFF_FFFF_FFFF
  const MIN_PART_SIZE: nat := 4096

  /** One partition; `ro` is the only mask flag the parser can set. */
  datatype Part = Part(name: string, autoName: bool, size: u64, offset: u64, ro: bool)

  /** One entry of the mtdids mapping. */
  datatype MtdId = MtdId(devType: nat, num: nat, size: u64, mtdId: string)

  /** A run of equal erase blocks on a non-uniform NOR flash. */
  datatype Region = Region(offset: nat, eraseSize: nat, numBlocks: nat)

  /** What the MTD layer reports for one device. */
  datatype Flash = Flash(size: u64, eraseSize: nat, regions: seq<Region>)

  type Hardware = map<(nat, nat), Flash>

  datatype ParsedPart = NoPart | ParsedPart(part: Part, rest: string)

  /** strchr: the index of the first `c`, or the length. */
  function Find(s: string, c: char): (k: nat)
    ensures k <= |s| && c !in s[..k]
    ensures k < |s| ==> s[k] == c
  {
    if s == "" || s[0] == c then 0
    else
      var k := Find(s[1..], c) + 1;
      assert s[..k] == [s[0]] + s[1..][..k - 1];
      k
  }

  lemma FindAppend(s: string, c: char, rest: string)
    requires c !in s
    ensures Find(s + [c] + rest, c) == |s|
  {
    var t := s + [c] + rest;
    var k := Find(t, c);
    assert forall i | 0 <= i < |s| :: t[i] == s[i];
    assert t[|s|] == c;
    assert forall i | 0 <= i < k :: t[..k][i] == t[i];
  }

  // ---- the parser

  /** "0x%08llx": at least eight lower-case hexadecimal digits. */
  function Hex(n: nat, width: nat): string
    decreases n, width
  {
    if n < 16 && width <= 1 then [HexDigit(n)]
    else Hex(n / 16, if width == 0 then 0 else width - 1) + [HexDigit(n % 16)]
  }

  function HexDigit(d: nat): char
    requires d < 16
  {
    "0123456789abcdef"[d]
  }

  /** The generated name of an unnamed partition, cut to 21 characters. */
  function AutoName(size: u64, offset: u64): string {
    var name := "0x" + Hex(size, 8) + "@0x" + Hex(offset, 8);
    if |name| <= 21 then name else name[..21]
  }

  function ParsePart(s: string): ParsedPart {
    if Head(s) == '-' then ParseOffset(SIZE_REMAINING, s[1..])
    else
      var n := MemsizeParse(s);
      if n.value < MIN_PART_SIZE then NoPart else ParseOffset(n.value, n.rest)
  }

  function ParseOffset(size: u64, s: string): ParsedPart {
    if Head(s) == '@'
    then var n := MemsizeParse(s[1..]); ParseName(size, n.value, n.rest)
    else ParseName(size, OFFSET_NOT_SPECIFIED, s)
  }

  function ParseName(size: u64, offset: u64, s: string): ParsedPart {
    if Head(s) != '(' then ParseFlags(Part(AutoName(size, offset), true, size, offset, false), s)
    else
      var k := Find(s[1..], ')');
      if k == |s| - 1 || k == 0 then NoPart
      else ParseFlags(Part(s[1..][..k], false, size, offset, false), s[k + 2..])
  }

  function ParseFlags(part: Part, s: string): ParsedPart {
    if "ro" <= s then ParseEnd(part.(ro := true), s[2..]) else ParseEnd(part, s)
  }

  function ParseEnd(part: Part, s: string): ParsedPart {
    if Head(s) == ',' then
      if part.size == SIZE_REMAINING then NoPart else ParsedPart(part, s[1..])
    else if s == "" || s[0] == ';' then ParsedPart(part, s)
    else NoPart
  }

  lemma ParseNameShape(size: u64, offset: u64, s: string)
    ensures var r := ParseName(size, offset, s); r.ParsedPart? ==> |r.rest| <= |s| && NameOk(r.part)
  {
  }

  lemma ParseOffsetShape(size: u64, s: string)
    ensures var r := ParseOffset(size, s); r.ParsedPart? ==> |r.rest| <= |s| && NameOk(r.part)
  {
    if Head(s) == '@' {
      MemsizeParseShrinks(s[1..]);
      var n := MemsizeParse(s[1..]);
      ParseNameShape(size, n.value, n.rest);
    } else {
      ParseNameShape(size, OFFSET_NOT_SPECIFIED, s);
    }
  }

  /** A parsed definition is never empty text, and its name is never empty and never holds a ')'. */
  lemma ParsePartShape(s: string)
    ensures var r := ParsePart(s); r.ParsedPart? ==> |r.rest| < |s| && NameOk(r.part)
  {
    if Head(s) == '-' {
      ParseOffsetShape(SIZE_REMAINING, s[1..]);
    } else if MemsizeParse(s).value >= MIN_PART_SIZE {
      MemsizeParseConsumes(s);
      var n := MemsizeParse(s);
      ParseOffsetShape(n.value, n.rest);
    }
  }

  lemma MemsizeParseConsumes(s: string)
    requires MemsizeParse(s).value != 0
    ensures |MemsizeParse(s).rest| < |s|
  {
    ScanDigitsStops(SkipRadix(s), Radix(s), 0);
    var t := SkipRadix(s);
    if t != "" && DigitValue(t[0]) < Radix(s) {
      ScanDigitsStops(t[1..], Radix(s), DigitValue(t[0]) % TWO64);
    }
  }

  predicate NameOk(p: Part) {
    p.autoName || (p.name != "" && ')' !in p.name)
  }

  // ---- the validity check

  predicate BlockStartsAt(regions: seq<Region>, x: nat) {
    exists i, j | 0 <= i < |regions| && 0 <= j < regions[i].numBlocks :: x == BlockStart(regions[i], j)
  }

  function BlockStart(r: Region, j: nat): nat {
    r.offset + j * r.eraseSize
  }

  /** Start and end on erase-block boundaries, uniform or by region. */
  predicate EraseAligned(flash: Flash, offset: u64, size: u64) {
    if flash.regions == [] then
      flash.eraseSize != 0 && offset % flash.eraseSize == 0 && size % flash.eraseSize == 0
    else
      var last := flash.regions[|flash.regions| - 1];
      var end := (offset + size) % TWO64;
      && BlockStartsAt(flash.regions, offset)
      && (BlockStartsAt(flash.regions, end) || end == BlockStart(last, last.numBlocks))
  }

  /** The partition with a fill-up size resolved, if it fits the device. */
  function Validate(hw: Hardware, id: MtdId, part: Part): Option<Part> {
    var p := if part.size == SIZE_REMAINING
             then part.(size := (id.size + TWO64 - part.offset) % TWO64) else part;
    var end := (p.offset + p.size) % TWO64;
    if p.offset > id.size || end <= p.offset || end > id.size then None
    else if (id.devType, id.num) in hw && EraseAligned(hw[(id.devType, id.num)], p.offset, p.size) then Some(p)
    else None
  }

  /** A partition the check accepts as it stands. */
  predicate PartOk(hw: Hardware, id: MtdId, p: Part) {
    Validate(hw, id, p) == Some(p) && NameOk(p)
  }

  lemma ValidateSettles(hw: Hardware, id: MtdId, p: Part)
    requires Validate(hw, id, p).Some?
    ensures var q := Validate(hw, id, p).value;
            && Validate(hw, id, q) == Some(q)
            && 0 < q.size && q.offset + q.size <= id.size
            && q == p.(size := q.size)
  {
  }

  // ---- the printer

  /** One definition; the offset is printed only at a gap. */
  function PrintPart(p: Part, gap: bool): string {
    MemsizeFormat(p.size) + PrintOffset(p, gap) + PrintName(p) + PrintFlags(p)
  }

  function PrintOffset(p: Part, gap: bool): string {
    if gap then "@" + MemsizeFormat(p.offset) else ""
  }

  function PrintName(p: Part): string {
    if p.autoName then "" else "(" + p.name + ")"
  }

  function PrintFlags(p: Part): string {
    if p.ro then "ro" else ""
  }

  /** What is compared: everything but a generated name. */
  function Plain(p: Part): Part {
    if p.autoName then p.(name := "") else p
  }

  // ---- one definition reads back

  predicate Ends(rest: string) {
    rest == "" || rest[0] == ',' || rest[0] == ';'
  }

  lemma FlagsReadBack(p: Part, q: Part, rest: string)
    requires Ends(rest) && q.ro == false
    ensures ParseFlags(q, PrintFlags(p) + rest) == ParseEnd(q.(ro := p.ro), rest)
  {
    var s := PrintFlags(p) + rest;
    if p.ro {
      assert s[2..] == rest && s[..2] == "ro";
    } else {
      assert s == rest;
      assert rest != "" ==> rest[0] != 'r';
    }
  }

  /** A name in brackets. */
  lemma NameScans(name: string, tail: string, size: u64, offset: u64)
    requires name != "" && ')' !in name
    ensures ParseName(size, offset, "(" + name + ")" + tail) == ParseFlags(Part(name, false, size, offset, false), tail)
  {
    hide ParseFlags, Find;
    var s := "(" + name + ")" + tail;
    assert s[1..] == name + ")" + tail;
    FindAppend(name, ')', tail);
    assert s[1..][..|name|] == name && s[|name| + 2..] == tail;
  }

  lemma NoNameScans(s: string, size: u64, offset: u64)
    requires Head(s) != '('
    ensures ParseName(size, offset, s) == ParseFlags(Part(AutoName(size, offset), true, size, offset, false), s)
  {
  }

  lemma FlagsHead(p: Part, rest: string)
    requires Ends(rest)
    ensures Head(PrintFlags(p) + rest) != '('
  {
    if !p.ro { assert PrintFlags(p) + rest == rest; }
  }

  lemma NameReadsBack(p: Part, offset: u64, rest: string)
    requires Ends(rest) && NameOk(p)
    ensures var q := if p.autoName then p.(name := AutoName(p.size, offset), offset := offset)
                     else p.(offset := offset);
            ParseName(p.size, offset, PrintName(p) + PrintFlags(p) + rest) == ParseEnd(q, rest)
  {
    hide ParseName, ParseFlags, ParseEnd, PrintFlags, AutoName;
    var tail := PrintFlags(p) + rest;
    if p.autoName {
      assert PrintName(p) + PrintFlags(p) + rest == tail;
      FlagsHead(p, rest);
      NoNameScans(tail, p.size, offset);
      FlagsReadBack(p, Part(AutoName(p.size, offset), true, p.size, offset, false), rest);
    } else {
      assert PrintName(p) + PrintFlags(p) + rest == "(" + p.name + ")" + tail;
      NameScans(p.name, tail, p.size, offset);
      FlagsReadBack(p, Part(p.name, false, p.size, offset, false), rest);
    }
  }

  /**
    A printed definition, followed by a separator or the end, parses exactly when the size reaches
    the minimum (and a fill-up size is not followed by another definition); what comes back is the
    same partition, its offset marked unspecified when it was not printed.
   */
  lemma PartReadsBack(p: Part, gap: bool, rest: string)
    requires Ends(rest) && NameOk(p)
    ensures var r := ParsePart(PrintPart(p, gap) + rest);
            var offset := if gap then p.offset else OFFSET_NOT_SPECIFIED;
            && (r.ParsedPart? <==> p.size >= MIN_PART_SIZE && !(p.size == SIZE_REMAINING && Head(rest) == ','))
            && (r.ParsedPart? ==>
                  && r.rest == (if Head(rest) == ',' then rest[1..] else rest)
                  && r.part.offset == offset
                  && Plain(r.part) == Plain(p).(offset := offset))
  {
    SizeReadsBack(p, gap, rest);
    OffsetReadsBack(p, gap, rest);
  }

  lemma SizeReadsBack(p: Part, gap: bool, rest: string)
    requires Ends(rest)
    ensures ParsePart(PrintPart(p, gap) + rest)
         == if p.size < MIN_PART_SIZE then NoPart
            else ParseOffset(p.size, PrintOffset(p, gap) + (PrintName(p) + PrintFlags(p) + rest))
  {
    var tail := PrintOffset(p, gap) + (PrintName(p) + PrintFlags(p) + rest);
    assert PrintPart(p, gap) + rest == MemsizeFormat(p.size) + tail;
    NotExtended(p, gap, rest);
    SizeTextReadsBack(p.size, tail);
  }

  lemma SizeTextReadsBack(size: u64, tail: string)
    requires !Extends(Head(tail))
    ensures ParsePart(MemsizeFormat(size) + tail)
         == if size < MIN_PART_SIZE then NoPart else ParseOffset(size, tail)
  {
    var s := MemsizeFormat(size) + tail;
    FormatHead(size);
    assert s[0] == MemsizeFormat(size)[0];
    MemsizeRoundTrip(size, tail);
  }

  lemma OffsetReadsBack(p: Part, gap: bool, rest: string)
    requires Ends(rest) && NameOk(p)
    ensures var offset := if gap then p.offset else OFFSET_NOT_SPECIFIED;
            var q := if p.autoName then p.(name := AutoName(p.size, offset), offset := offset)
                     else p.(offset := offset);
            ParseOffset(p.size, PrintOffset(p, gap) + (PrintName(p) + PrintFlags(p) + rest)) == ParseEnd(q, rest)
  {
    hide ParseOffset, ParseName, ParseEnd, PrintName, PrintFlags, AutoName, MemsizeFormat;
    var names := PrintName(p) + PrintFlags(p) + rest;
    NotExtended(p, gap, rest);
    if gap {
      assert PrintOffset(p, gap) == "@" + MemsizeFormat(p.offset);
      OffsetScans(p.size, p.offset, names);
      NameReadsBack(p, p.offset, rest);
    } else {
      assert PrintOffset(p, gap) + names == names;
      NoOffsetScans(p.size, names);
      NameReadsBack(p, OFFSET_NOT_SPECIFIED, rest);
    }
  }

  /** An offset behind its sign. */
  lemma OffsetScans(size: u64, offset: u64, names: string)
    requires !Extends(Head(names))
    ensures ParseOffset(size, "@" + MemsizeFormat(offset) + names) == ParseName(size, offset, names)
  {
    hide ParseName, MemsizeFormat, MemsizeParse;
    var s := "@" + MemsizeFormat(offset) + names;
    assert s[1..] == MemsizeFormat(offset) + names;
    MemsizeRoundTrip(offset, names);
  }

  lemma NoOffsetScans(size: u64, s: string)
    requires Head(s) != '@'
    ensures ParseOffset(size, s) == ParseName(size, OFFSET_NOT_SPECIFIED, s)
  {
  }

  lemma FormatHead(size: u64)
    ensures MemsizeFormat(size) != "" && DigitValue(MemsizeFormat(size)[0]) < 10
  {
    DecimalHead(size / GB);
    DecimalHead(size / MB);
    DecimalHead(size / KB);
    DecimalHead(size);
  }

  lemma NotExtended(p: Part, gap: bool, rest: string)
    requires Ends(rest)
    ensures var names := PrintName(p) + PrintFlags(p) + rest;
            && !Extends(Head(names))
            && (gap <==> Head(PrintOffset(p, gap) + names) == '@')
            && !Extends(Head(PrintOffset(p, gap) + names))
  {
    var names := PrintName(p) + PrintFlags(p) + rest;
    if p.autoName && !p.ro {
      assert names == rest;
    } else if p.autoName {
      assert names[0] == 'r';
    } else {
      assert names[0] == '(';
    }
    if !gap { assert PrintOffset(p, gap) + names == names; }
  }
}
