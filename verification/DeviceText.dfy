/** Devices of cmd/mtdparts.c: the text of a whole partition table, its parser and its printer. */
module DeviceText {
  import opened Base
  import opened NumText
  import opened PartText
  import opened PartList

  /** One device with its partitions; `numParts` is the counter kept beside the list. */
  datatype Device = Device(id: MtdId, numParts: nat, parts: seq<Part>)

  datatype Defs = BadDefs | Defs(parts: seq<Part>, rest: string)

  datatype ParsedDevice = NoDevice | ParsedDevice(dev: Device, rest: string)

  // ---- the parser

  function End(p: Part): u64 {
    (p.offset + p.size) % TWO64
  }

  /** The definitions up to a ';' or the end; an offset that is not given is the end of the one before. */
  function ParseDefs(hw: Hardware, id: MtdId, s: string, offset: u64): Defs
    decreases |s|
  {
    if s == "" || s[0] == ';' then Defs([], s)
    else
      ParsePartShape(s);
      var r := ParsePart(s);
      if r.NoPart? then BadDefs
      else
        var v := Validate(hw, id, Placed(r.part, offset));
        if v.None? then BadDefs
        else
          var more := ParseDefs(hw, id, r.rest, End(v.value));
          if more.BadDefs? then BadDefs else Defs([v.value] + more.parts, more.rest)
  }

  function Placed(p: Part, offset: u64): Part {
    if p.offset == OFFSET_NOT_SPECIFIED then p.(offset := offset) else p
  }

  function IdByName(ids: seq<MtdId>, name: string): Option<MtdId> {
    if ids == [] then None
    else if ids[0].mtdId == name then Some(ids[0])
    else IdByName(ids[1..], name)
  }

  /** The index of the device of that type and number, or the length of the list. */
  function DeviceFind(devs: seq<Device>, devType: nat, num: nat): (k: nat)
    ensures k <= |devs|
    ensures k < |devs| ==> devs[k].id.devType == devType && devs[k].id.num == num
    ensures forall i | 0 <= i < k :: devs[i].id.devType != devType || devs[i].id.num != num
  {
    if devs == [] || (devs[0].id.devType == devType && devs[0].id.num == num) then 0
    else DeviceFind(devs[1..], devType, num) + 1
  }

  /** Where the first partition of a definition goes: behind the last one the device already has. */
  function StartOffset(devs: seq<Device>, id: MtdId): u64 {
    var k := DeviceFind(devs, id.devType, id.num);
    if k < |devs| && devs[k].parts != [] then End(devs[k].parts[|devs[k].parts| - 1]) else 0
  }

  function ParseDevice(hw: Hardware, ids: seq<MtdId>, devs: seq<Device>, s: string): ParsedDevice {
    var k := Find(s, ':');
    if k == |s| then NoDevice
    else
      var id := IdByName(ids, s[..k]);
      if id.None? then NoDevice
      else
        var defs := ParseDefs(hw, id.value, s[k + 1..], StartOffset(devs, id.value));
        if defs.BadDefs? || defs.parts == [] then NoDevice
        else
          var parts := InsertAll(defs.parts);
          if parts.None? then NoDevice
          else
            var rest := if defs.rest == "" then "" else defs.rest[1..];
            ParsedDevice(Device(id.value, |parts.value|, parts.value), rest)
  }

  lemma {:induction false} ParseDefsShrinks(hw: Hardware, id: MtdId, s: string, offset: u64)
    ensures var r := ParseDefs(hw, id, s, offset); r.Defs? ==> |r.rest| <= |s|
    decreases |s|
  {
    if s != "" && s[0] != ';' {
      ParsePartShape(s);
      var r := ParsePart(s);
      if r.ParsedPart? {
        var v := Validate(hw, id, Placed(r.part, offset));
        if v.Some? { ParseDefsShrinks(hw, id, r.rest, End(v.value)); }
      }
    }
  }

  lemma ParseDeviceShrinks(hw: Hardware, ids: seq<MtdId>, devs: seq<Device>, s: string)
    ensures var r := ParseDevice(hw, ids, devs, s); r.ParsedDevice? ==> |r.rest| < |s|
  {
    var k := Find(s, ':');
    if k < |s| {
      var id := IdByName(ids, s[..k]);
      if id.Some? { ParseDefsShrinks(hw, id.value, s[k + 1..], StartOffset(devs, id.value)); }
    }
  }

  /** Devices one after the other; a device that is already on the list is refused. */
  function ParseDevices(hw: Hardware, ids: seq<MtdId>, devs: seq<Device>, s: string): Option<seq<Device>>
    decreases |s|
  {
    if s == "" then Some(devs)
    else
      ParseDeviceShrinks(hw, ids, devs, s);
      var r := ParseDevice(hw, ids, devs, s);
      if r.NoDevice? || DeviceFind(devs, r.dev.id.devType, r.dev.id.num) < |devs| then None
      else ParseDevices(hw, ids, devs + [r.dev], r.rest)
  }

  const PREFIX: string := "mtdparts="

  /** The devices a value of the `mtdparts` variable stands for; the empty text stands for none. */
  function ParseTable(hw: Hardware, ids: seq<MtdId>, s: string): Option<seq<Device>> {
    var t := if PREFIX <= s then s[9..] else s;
    if t == "" then None else ParseDevices(hw, ids, [], t)
  }

  // ---- the printer

  function PrintDefs(ps: seq<Part>, left: int, end: u64): string {
    if ps == [] then ""
    else
      PrintPart(ps[0], ps[0].offset != end) + (if left > 1 then "," else "")
      + PrintDefs(ps[1..], left - 1, End(ps[0]))
  }

  function PrintDevice(dev: Device): string {
    dev.id.mtdId + ":" + PrintDefs(dev.parts, dev.numParts, 0)
  }

  function PrintTable(devs: seq<Device>): string {
    if devs == [] then ""
    else PrintDevice(devs[0]) + (if |devs| > 1 then ";" else "") + PrintTable(devs[1..])
  }

  // ---- the definitions of a device read back

  function PlainParts(ps: seq<Part>): (qs: seq<Part>)
    ensures |qs| == |ps| && forall i | 0 <= i < |ps| :: qs[i] == Plain(ps[i])
  {
    seq(|ps|, i requires 0 <= i < |ps| => Plain(ps[i]))
  }

  ghost predicate PartsOk(hw: Hardware, id: MtdId, ps: seq<Part>) {
    forall i | 0 <= i < |ps| :: PartOk(hw, id, ps[i])
  }

  /** Sizes the parser takes: none below the minimum, and a fill-up size only at the end. */
  ghost predicate SizesReadable(ps: seq<Part>) {
    forall i | 0 <= i < |ps| :: ps[i].size >= MIN_PART_SIZE && (ps[i].size == SIZE_REMAINING ==> i == |ps| - 1)
  }

  ghost predicate EndsDefs(rest: string) {
    rest == "" || rest[0] == ';'
  }

  lemma PlacedValidates(hw: Hardware, id: MtdId, p: Part, q: Part, gap: bool, offset: u64)
    requires PartOk(hw, id, p) && (gap || p.offset == offset)
    requires Plain(q) == Plain(p).(offset := if gap then p.offset else OFFSET_NOT_SPECIFIED)
    ensures var v := Validate(hw, id, Placed(q, offset)); v.Some? && Plain(v.value) == Plain(p)
  {
    assert p.offset < OFFSET_NOT_SPECIFIED;
  }

  lemma DefsPrinted(ps: seq<Part>, end: u64, rest: string)
    requires ps != []
    ensures var more := PrintDefs(ps[1..], |ps| - 1, End(ps[0])) + rest;
            var tail := if |ps| > 1 then "," + more else rest;
            PrintDefs(ps, |ps|, end) + rest == PrintPart(ps[0], ps[0].offset != end) + tail
  {
    hide PrintPart, End;
    if |ps| == 1 { assert ps[1..] == []; }
  }

  /** The first definition of a text, with the end of what it defines known. */
  lemma DefParsed(hw: Hardware, id: MtdId, s: string, offset: u64, end: u64)
    requires s != "" && s[0] != ';'
    requires var r := ParsePart(s);
             r.ParsedPart? ==> var v := Validate(hw, id, Placed(r.part, offset)); v.Some? && End(v.value) == end
    ensures var r := ParsePart(s);
            var more := if r.ParsedPart? then ParseDefs(hw, id, r.rest, end) else BadDefs;
            var all := if more.BadDefs? then BadDefs
                       else Defs([Validate(hw, id, Placed(r.part, offset)).value] + more.parts, more.rest);
            ParseDefs(hw, id, s, offset) == all
  {
    hide ParsePart, Validate, Placed, End;
  }

  lemma NoDefs(hw: Hardware, id: MtdId, rest: string, offset: u64)
    requires EndsDefs(rest)
    ensures ParseDefs(hw, id, rest, offset) == Defs([], rest)
  {
  }

  lemma {:induction false} DefsReadBack(hw: Hardware, id: MtdId, ps: seq<Part>, end: u64, rest: string)
    requires PartsOk(hw, id, ps) && ps != [] && EndsDefs(rest)
    ensures var r := ParseDefs(hw, id, PrintDefs(ps, |ps|, end) + rest, end);
            && (r.Defs? <==> SizesReadable(ps))
            && (r.Defs? ==> r.rest == rest && PlainParts(r.parts) == PlainParts(ps))
    decreases ps
  {
    hide ParsePart, PrintPart, Validate, Plain, PlainParts, End, Placed, ParseDefs, PrintDefs, PartOk;
    var p, gap := ps[0], ps[0].offset != end;
    var more := PrintDefs(ps[1..], |ps| - 1, End(p)) + rest;
    var tail := if |ps| > 1 then "," + more else rest;
    DefsPrinted(ps, end, rest);
    OkName(hw, id, p);
    PartReadsBack(p, gap, tail);
    PrintPartHead(p, gap, tail);
    var s := PrintPart(p, gap) + tail;
    var r := ParsePart(s);
    if r.ParsedPart? {
      PlacedValidates(hw, id, p, r.part, gap, end);
      var v := Validate(hw, id, Placed(r.part, end)).value;
      SamePlaceSameEnd(p, v);
      DefParsed(hw, id, s, end, End(p));
      if |ps| > 1 {
        assert tail[1..] == more;
        DefsReadBack(hw, id, ps[1..], End(p), rest);
        SizesReadableCons(ps);
        var d := ParseDefs(hw, id, more, End(p));
        if d.Defs? { PlainCons(v, d.parts, ps); }
      } else {
        NoDefs(hw, id, rest, End(p));
        PlainCons(v, [], ps);
      }
    } else {
      DefParsed(hw, id, s, end, End(p));
    }
  }

  lemma OkName(hw: Hardware, id: MtdId, p: Part)
    requires PartOk(hw, id, p)
    ensures NameOk(p)
  {
  }

  lemma SamePlaceSameEnd(p: Part, q: Part)
    requires Plain(p) == Plain(q)
    ensures End(p) == End(q) && p.offset == q.offset && p.size == q.size
  {
    assert Plain(p).offset == p.offset && Plain(q).offset == q.offset;
  }

  lemma SizesReadableCons(ps: seq<Part>)
    requires |ps| > 1
    ensures SizesReadable(ps) <==> ps[0].size >= MIN_PART_SIZE && ps[0].size != SIZE_REMAINING && SizesReadable(ps[1..])
  {
    var qs := ps[1..];
    assert forall i | 0 < i < |ps| :: ps[i] == qs[i - 1];
  }

  lemma PlainCons(v: Part, vs: seq<Part>, ps: seq<Part>)
    requires ps != [] && Plain(v) == Plain(ps[0])
    requires PlainParts(vs) == PlainParts(ps[1..])
    ensures PlainParts([v] + vs) == PlainParts(ps)
  {
    assert |vs| == |ps| - 1;
    forall i | 0 <= i < |ps| ensures Plain(([v] + vs)[i]) == Plain(ps[i]) {
      if i > 0 { assert PlainParts(vs)[i - 1] == PlainParts(ps[1..])[i - 1]; }
    }
  }

  lemma PrintPartHead(p: Part, gap: bool, tail: string)
    ensures var s := PrintPart(p, gap) + tail; s != "" && s[0] != ';'
  {
    FormatHead(p.size);
    assert (PrintPart(p, gap) + tail)[0] == MemsizeFormat(p.size)[0];
  }
}
