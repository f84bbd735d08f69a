/** cmd/mtdparts.c as it runs: the parse and print loops, and the table they keep. */
module MtdTable {
  import opened Base
  import opened NumText
  import opened PartText
  import opened PartList
  import opened DeviceText
  import opened TableRoundTrip
  import opened MtdState
  import opened MtdProofs

  // ---- parsing

  function Prepend(ps: seq<Part>, d: Defs): Defs {
    if d.BadDefs? then BadDefs else Defs(ps + d.parts, d.rest)
  }

  /** The definition loop of device_parse, filling a temporary list. */
  method ParseDefList(hw: Hardware, id: MtdId, s: string, start: u64) returns (r: Defs)
    ensures r == ParseDefs(hw, id, s, start)
  {
    hide ParsePart, Validate;
    var rest, offset := s, start;
    var tmp: seq<Part> := [];
    while rest != "" && rest[0] != ';'
      invariant ParseDefs(hw, id, s, start) == Prepend(tmp, ParseDefs(hw, id, rest, offset))
      decreases |rest|
    {
      ParsePartShape(rest);
      var pp := ParsePart(rest);
      if pp.NoPart? { return BadDefs; }
      var v := Validate(hw, id, Placed(pp.part, offset));
      if v.None? { return BadDefs; }
      ghost var more := ParseDefs(hw, id, pp.rest, End(v.value));
      assert more.Defs? ==> tmp + ([v.value] + more.parts) == tmp + [v.value] + more.parts;
      offset := End(v.value);
      tmp := tmp + [v.value];
      rest := pp.rest;
    }
    r := Defs(tmp, rest);
  }

  /** device_parse: the name, the definitions, then sorted insertion. */
  method DeviceParse(hw: Hardware, ids: seq<MtdId>, devs: seq<Device>, s: string) returns (r: ParsedDevice)
    ensures r == ParseDevice(hw, ids, devs, s)
  {
    hide ParseDefs, InsertAll;
    var k := Find(s, ':');
    if k == |s| { return NoDevice; }
    var id := IdByName(ids, s[..k]);
    if id.None? { return NoDevice; }
    var defs := ParseDefList(hw, id.value, s[k + 1..], StartOffset(devs, id.value));
    if defs.BadDefs? || defs.parts == [] { return NoDevice; }
    var parts := LinkAll(defs.parts);
    if parts.None? { return NoDevice; }
    r := ParsedDevice(Device(id.value, |parts.value|, parts.value), if defs.rest == "" then "" else defs.rest[1..]);
  }

  method LinkAll(tmp: seq<Part>) returns (r: Option<seq<Part>>)
    ensures r == InsertAll(tmp)
  {
    var parts: seq<Part> := [];
    for i := 0 to |tmp|
      invariant InsertAll(tmp[..i]) == Some(parts)
    {
      assert tmp[..i + 1][..i] == tmp[..i];
      var next, _ := InsertPart(parts, tmp[i]);
      if next.None? {
        NoneStays(tmp, i + 1);
        return None;
      }
      parts := next.value;
    }
    assert tmp[..|tmp|] == tmp;
    r := Some(parts);
  }

  lemma {:induction false} NoneStays(ps: seq<Part>, n: nat)
    requires n <= |ps| && InsertAll(ps[..n]).None?
    ensures InsertAll(ps).None?
  {
    if n < |ps| {
      assert ps[..|ps| - 1][..n] == ps[..n];
      NoneStays(ps[..|ps| - 1], n);
    } else {
      assert ps[..n] == ps;
    }
  }

  /** The device loop of parse_mtdparts. */
  method ParseText(hw: Hardware, ids: seq<MtdId>, s: string) returns (r: Option<seq<Device>>)
    ensures r == ParseTable(hw, ids, s)
  {
    hide ParseDevice;
    var rest := if PREFIX <= s then s[9..] else s;
    if rest == "" { return None; }
    var devs: seq<Device> := [];
    while rest != ""
      invariant ParseTable(hw, ids, s) == ParseDevices(hw, ids, devs, rest)
      decreases |rest|
    {
      var d := DeviceParse(hw, ids, devs, rest);
      ParseDeviceShrinks(hw, ids, devs, rest);
      if d.NoDevice? || DeviceFind(devs, d.dev.id.devType, d.dev.id.num) < |devs| { return None; }
      devs := devs + [d.dev];
      rest := d.rest;
    }
    r := Some(devs);
  }

  /** The entry loop of parse_mtdids. */
  method ParseIdText(hw: Hardware, s: string) returns (r: Ids)
    ensures r == ParseIds(hw, [], s)
  {
    hide MtdIdParse, IdFind;
    var list: seq<MtdId> := [];
    var rest := s;
    while true
      invariant ParseIds(hw, [], s) == ParseIds(hw, list, rest)
      decreases |rest|
    {
      MtdIdParseShrinks(rest);
      var d := MtdIdParse(rest);
      if d.NoDevId? || Head(d.rest) != '=' { return Ids(false, []); }
      if (d.devType, d.num) !in hw { return Ids(false, list); }
      if IdFind(list, d.devType, d.num).Some? { return Ids(false, []); }
      var t := d.rest[1..];
      var k := Find(t, ',');
      list := list + [MtdId(d.devType, d.num, hw[(d.devType, d.num)].size, t[..k])];
      if k == |t| || k + 1 == |t| { return Ids(true, list); }
      rest := t[k + 1..];
    }
  }

  // ---- printing

  /** The output buffer: what was written and the room left, or `Full` once a piece did not fit. */
  datatype Buffer = Full | Buffer(text: string, room: nat)

  function Put(b: Buffer, piece: string): Buffer {
    if b.Full? || |piece| > b.room then Full else Buffer(b.text + piece, b.room - |piece|)
  }

  /** Writing piece by piece overflows exactly when writing all at once would. */
  lemma PutPut(b: Buffer, x: string, y: string)
    ensures Put(Put(b, x), y) == Put(b, x + y)
  {
    if b.Buffer? { assert b.text + x + y == b.text + (x + y); }
  }

  /** Size, offset at a gap, name if it was given, flag. */
  method PutPart(b: Buffer, p: Part, gap: bool) returns (r: Buffer)
    ensures r == Put(b, PrintPart(p, gap))
  {
    hide MemsizeFormat;
    r := Put(b, MemsizeFormat(p.size));
    PutPut(b, MemsizeFormat(p.size), PrintOffset(p, gap));
    PutPut(b, MemsizeFormat(p.size) + PrintOffset(p, gap), PrintName(p));
    PutPut(b, MemsizeFormat(p.size) + PrintOffset(p, gap) + PrintName(p), PrintFlags(p));
    r := Put(r, PrintOffset(p, gap));
    r := Put(r, PrintName(p));
    r := Put(r, PrintFlags(p));
  }

  lemma PrintDefsStep(ps: seq<Part>, i: nat, num: nat, end: u64)
    requires i < |ps|
    ensures PrintDefs(ps[i..], num - i, end)
         == PrintPart(ps[i], ps[i].offset != end) + (if num > i + 1 then "," else "")
            + PrintDefs(ps[i + 1..], num - (i + 1), End(ps[i]))
  {
    assert ps[i..][1..] == ps[i + 1..];
  }

  /** The partition loop: the end of the previous partition decides whether an offset is written. */
  method PutDefs(b: Buffer, dev: Device) returns (r: Buffer)
    ensures r == Put(b, PrintDefs(dev.parts, dev.numParts, 0))
  {
    hide PrintPart, Put;
    r := b;
    var end: u64 := 0;
    assert dev.parts[0..] == dev.parts;
    for i := 0 to |dev.parts|
      invariant Put(r, PrintDefs(dev.parts[i..], dev.numParts - i, end))
             == Put(b, PrintDefs(dev.parts, dev.numParts, 0))
    {
      PrintDefsStep(dev.parts, i, dev.numParts, end);
      var p, comma := dev.parts[i], if dev.numParts > i + 1 then "," else "";
      ghost var text := PrintPart(p, p.offset != end);
      ghost var rest := PrintDefs(dev.parts[i + 1..], dev.numParts - (i + 1), End(p));
      PutPut(r, text, comma);
      PutPut(r, text + comma, rest);
      r := PutPart(r, p, p.offset != end);
      r := Put(r, comma);
      end := End(p);
    }
    assert dev.parts[|dev.parts|..] == [];
    PutNothing(r, b, PrintDefs(dev.parts, dev.numParts, 0));
  }

  lemma PutNothing(r: Buffer, b: Buffer, x: string)
    requires Put(r, "") == Put(b, x)
    ensures r == Put(b, x)
  {
  }

  /** generate_mtdparts into a buffer of `buflen` characters; None when it does not fit. */
  method Generate(devs: seq<Device>, buflen: nat) returns (r: Option<string>)
    requires buflen > 0
    ensures r == if |PrintTable(devs)| <= buflen - 1 then Some(PrintTable(devs)) else None
  {
    hide PrintDefs, Put;
    var b0 := Buffer("", buflen - 1);
    var b := b0;
    assert devs[0..] == devs;
    for i := 0 to |devs|
      invariant Put(b, PrintTable(devs[i..])) == Put(b0, PrintTable(devs))
    {
      var dev := devs[i];
      assert devs[i..][1..] == devs[i + 1..];
      var name, sep := dev.id.mtdId + ":", if i + 1 < |devs| then ";" else "";
      ghost var defs := PrintDefs(dev.parts, dev.numParts, 0);
      PutPut(b, name, defs);
      PutPut(b, name + defs, sep);
      PutPut(b, name + defs + sep, PrintTable(devs[i + 1..]));
      b := Put(b, name);
      b := PutDefs(b, dev);
      b := Put(b, sep);
    }
    assert devs[|devs|..] == [];
    PutNothing(b, b0, PrintTable(devs));
    PutFirst(buflen - 1, PrintTable(devs));
    r := if b.Full? then None else Some(b.text);
  }

  lemma PutFirst(room: nat, x: string)
    ensures Put(Buffer("", room), x) == if |x| <= room then Buffer(x, room - |x|) else Full
  {
    assert "" + x == x;
  }

  // ---- searching

  /** find_dev_and_part: every name of every device, then the number form. */
  method FindPart(devs: seq<Device>, id: string) returns (f: Found)
    ensures f == FindDevAndPart(devs, id)
  {
    hide FindByNumber;
    for i := 0 to |devs|
      invariant FindByName(devs, 0, id) == FindByName(devs, i, id)
    {
      var ps := devs[i].parts;
      assert ps[0..] == ps;
      for j := 0 to |ps|
        invariant NameIn(ps, id) == j + NameIn(ps[j..], id)
      {
        assert ps[j..][1..] == ps[j + 1..];
        if ps[j].name == id { return Found(i, j % 256, j); }
      }
    }
    f := FindByNumber(devs, id);
  }

  // ---- the table

  /** The static variables of the file, and the environment variables it shares with the user. */
  class PartTable {
    const board: Board
    var ids: seq<MtdId>
    var devices: seq<Device>
    var curDev: Option<nat>
    var curPart: nat
    var lastIds: string
    var lastParts: string
    var lastPartition: string
    var useDefaults: bool
    var mtdids: Option<string>
    var mtdparts: Option<string>
    var partition: Option<string>

    ghost function St(): State
      reads this
    {
      State(ids, devices, curDev, curPart, lastIds, lastParts, lastPartition, useDefaults, mtdids, mtdparts, partition)
    }

    constructor (board: Board)
      ensures this.board == board && St() == BOOT && Inv(board, St()) && Agree(board, St())
    {
      this.board := board;
      ids, devices, curDev, curPart := [], [], None, 0;
      lastIds, lastParts, lastPartition, useDefaults := "", "", "", true;
      mtdids, mtdparts, partition := None, None, None;
      new;
      BootInv(board);
      BootAgrees(board);
    }

    method SaveCurrent()
      modifies this`partition, this`lastPartition
      ensures St() == CurrentSave(old(St()))
    {
      if curDev.Some? && curDev.value < |devices| {
        lastPartition := PartitionText(devices[curDev.value].id, curPart);
        partition := Some(lastPartition);
      } else {
        lastPartition, partition := "", None;
      }
    }

    method InitDevices()
      modifies this
      ensures St() == DevicesInit(old(St()))
    {
      lastParts, curDev := "", None;
      SaveCurrent();
      devices := [];
    }

    method AddDevice(dev: Device)
      modifies this
      ensures St() == DeviceAdd(old(St()), dev)
    {
      var first := devices == [];
      devices := devices + [dev];
      if first {
        curDev, curPart := Some(0), 0;
        SaveCurrent();
      }
    }

    method DelDevice(k: nat)
      requires k < |devices|
      modifies this
      ensures St() == DeviceDel(old(St()), k)
    {
      devices := devices[..k] + devices[k + 1..];
      if curDev == Some(k) {
        if devices == [] { curDev := None; } else { curDev, curPart := Some(0), 0; }
        SaveCurrent();
      } else if curDev.Some? && curDev.value > k {
        curDev := Some(curDev.value - 1);
      }
    }

    /** Validates and links a partition, and moves the current number with its partition. */
    method AddPartition(k: nat, part: Part) returns (ok: bool)
      requires k < |devices|
      modifies this
      ensures Outcome(St(), ok) == PartAdd(old(St()), k, part, board.hw)
    {
      hide Validate, SortInsert, InsertPos;
      var dev := devices[k];
      var v := Validate(board.hw, dev.id, part);
      if v.None? { return false; }
      var parts, pos := InsertPart(dev.parts, v.value);
      if parts.None? { return false; }
      devices := devices[k := dev.(numParts := dev.numParts + 1, parts := parts.value)];
      var n := IndexAfterAdd(dev.parts, curPart, pos);
      if curDev == Some(k) && n.Some? {
        curPart := n.value;
        SaveCurrent();
      }
      ok := true;
    }

    method DelPartition(k: nat, i: nat)
      requires k < |devices| && i < |devices[k].parts|
      modifies this
      ensures St() == PartDel(old(St()), k, i)
    {
      var dev := devices[k];
      if dev.numParts <= 1 {
        DelDevice(k);
        return;
      }
      var here := curDev == Some(k) && curPart < |dev.parts|;
      if here { curPart := IndexAfterDel(dev.parts, curPart, i); }
      devices := devices[k := dev.(numParts := dev.numParts - 1, parts := dev.parts[..i] + dev.parts[i + 1..])];
      if here { SaveCurrent(); }
    }

    method GenerateAndSave() returns (ok: bool)
      modifies this`lastParts, this`mtdparts
      ensures Outcome(St(), ok) == GenerateSave(old(St()))
    {
      var text := Generate(devices, MTDPARTS_MAXLEN);
      ok := text.Some?;
      lastParts := if ok then text.value else "";
      mtdparts := if lastParts == "" then None else Some(lastParts);
    }

    method SyncIdList(ids: string) returns (ok: bool)
      modifies this
      ensures Outcome(St(), ok) == SyncIds(board, old(St()), ids)
    {
      hide ParseIds;
      if lastIds != "" && lastIds == ids { return true; }
      var r := ParseIdText(board.hw, ids);
      this.ids, lastIds := r.list, "";
      ok := r.ok;
      if ok { lastIds := ids; } else { InitDevices(); }
    }

    method SyncPartList(parts: string, idsChanged: bool) returns (ok: bool)
      modifies this
      ensures Outcome(St(), ok) == SyncParts(board, old(St()), parts, idsChanged)
    {
      hide ParseTable;
      if lastParts != "" && lastParts == parts && !idsChanged { return true; }
      InitDevices();
      var r := ParseText(board.hw, ids, parts);
      if r.None? { return false; }
      devices := r.value;
      if devices == [] { return false; }
      lastParts, curDev, curPart := parts, Some(0), 0;
      SaveCurrent();
      ok := true;
    }

    method SyncCurrentPart(wanted: string)
      modifies this
      ensures St() == SyncCurrent(old(St()), wanted)
    {
      hide FindDevAndPart;
      if wanted != "" && wanted != lastPartition {
        var f := FindPart(devices, wanted);
        if f.Found? {
          curDev, curPart := Some(f.dev), f.num;
          SaveCurrent();
        }
      } else if partition.None? {
        SaveCurrent();
      }
    }

    /** mtdparts_init: whenever it succeeds with `mtdparts` set, the list is a fresh parse of the environment. */
    method InitTable() returns (ok: bool)
      modifies this
      ensures Outcome(St(), ok) == Init(board, old(St()))
      ensures old(Inv(board, St())) ==> Inv(board, St())
      ensures old(Agree(board, St())) ==> Agree(board, St()) && (ok && mtdparts.Some? ==> Fresh(board, St()))
    {
      ghost var s0 := St();
      ok := RunInit();
      if Inv(board, s0) { InitKeeps(board, s0); }
      if Agree(board, s0) { InitAgrees(board, s0); }
    }

    method RunInit() returns (ok: bool)
      modifies this
      ensures Outcome(St(), ok) == Init(board, old(St()))
    {
      hide InitParts;
      var wanted := if partition.None? then "" else Clip(partition.value, PARTITION_MAXLEN);
      if mtdids.None? && board.idsDefault.None? { return false; }
      var idText := if mtdids.Some? then mtdids.value else board.idsDefault.value;
      mtdids := EnvValue(Some(idText));
      if |idText| > MTDIDS_MAXLEN - 1 { return false; }
      ok := RunInitParts(idText, wanted);
    }

    method RunInitParts(idText: string, wanted: string) returns (ok: bool)
      modifies this
      ensures Outcome(St(), ok) == InitParts(board, old(St()), idText, wanted)
    {
      hide SyncIds, SyncParts, SyncCurrent;
      var parts := mtdparts;
      if parts.None? && board.partsDefault.Some? && useDefaults {
        parts := board.partsDefault;
        mtdparts, useDefaults := EnvValue(parts), false;
      }
      if parts.Some? && |parts.value| > MTDPARTS_MAXLEN - 1 { return false; }
      var changed := lastIds == "" || lastIds != idText;
      ok := SyncIdList(idText);
      if !ok { return; }
      if parts.None? {
        if lastParts != "" { InitDevices(); }
        return;
      }
      ok := SyncPartList(parts.value, changed);
      if ok { SyncCurrentPart(wanted); }
    }

    method AddCommand(c: Command) returns (ok: bool)
      requires c.Add?
      modifies this
      ensures Outcome(St(), ok) == AddPart(board, old(St()), c)
    {
      hide MtdIdParse, IdFind, ParseDevice, GenerateSave, PartAdd;
      var d := MtdIdParse(c.dev);
      if d.NoDevId? { return false; }
      var id := IdFind(ids, d.devType, d.num);
      if id.None? || DescLen(id.value, c) >= PART_ADD_DESC_MAXLEN { return false; }
      var r := DeviceParse(board.hw, ids, devices, id.value.mtdId + ":" + c.def + "(" + c.name + ")" + c.flags);
      if r.NoDevice? { return false; }
      var k := DeviceFind(devices, r.dev.id.devType, r.dev.id.num);
      if k == |devices| {
        AddDevice(r.dev);
      } else {
        if r.dev.parts == [] { return false; }
        ok := AddPartition(k, r.dev.parts[0]);
        if !ok { return; }
      }
      ok := GenerateAndSave();
    }

    method DelCommand(id: string) returns (ok: bool)
      modifies this
      ensures Outcome(St(), ok) == DelPart(old(St()), id)
    {
      hide FindDevAndPart, PartDel, GenerateSave;
      var f := FindPart(devices, id);
      if f.NotFound? || f.dev >= |devices| || f.part >= |devices[f.dev].parts| { return false; }
      DelPartition(f.dev, f.part);
      ok := GenerateAndSave();
    }

    /** One command line: the invariant holds afterwards, and the agreement unless an unreadable table was printed. */
    method Do(c: Command) returns (ok: bool)
      requires Inv(board, St()) && Agree(board, St())
      modifies this
      ensures Outcome(St(), ok) == Exec(board, old(St()), c)
      ensures Inv(board, St())
      ensures Agree(board, St()) <==> (old(Prints(board, St(), c)) ==> TableReadable(ids, devices))
    {
      ghost var s0 := St();
      ok := RunCommand(c);
      ExecKeeps(board, s0, c);
      ExecAgrees(board, s0, c);
    }

    method RunCommand(c: Command) returns (ok: bool)
      modifies this
      ensures Outcome(St(), ok) == Exec(board, old(St()), c)
    {
      hide Init, AddPart, DelPart, FindDevAndPart;
      ok := true;
      if c.SetIds? {
        mtdids := EnvValue(c.value);
      } else if c.SetParts? {
        mtdparts := EnvValue(c.value);
      } else if c.SetPartition? {
        partition := EnvValue(c.value);
      } else if c.Default? {
        mtdids, mtdparts, partition, useDefaults := None, None, None, true;
        var _ := RunInit();
      } else if c.DelAll? {
        var _ := RunInit();
        mtdparts := None;
        InitDevices();
      } else {
        ok := RunInit();
        if !ok || c.List? { return; }
        if c.Add? {
          ok := AddCommand(c);
        } else if c.Del? {
          ok := DelCommand(c.id);
        } else {
          var f := FindPart(devices, c.id);
          ok := f.Found?;
          if ok {
            curDev, curPart := Some(f.dev), f.num;
            SaveCurrent();
          }
        }
      }
    }
  }
}
