/** The state behind the `mtdparts` and `chpart` commands of cmd/mtdparts.c, and what each of them does to it. */
module MtdState {
  import opened Base
  import opened NumText
  import opened PartText
  import opened PartList
  import opened DeviceText

  const MTDIDS_MAXLEN: nat := 128
  const MTDPARTS_MAXLEN: nat := 512
  const PARTITION_MAXLEN: nat := 16
  const PART_ADD_DESC_MAXLEN: nat := 64

  const NOR: nat := 1
  const NAND: nat := 2
  const ONENAND: nat := 4
  const SPINAND: nat := 8

  /** What the board provides: its flash devices and the built-in defaults. */
  datatype Board = Board(hw: Hardware, idsDefault: Option<string>, partsDefault: Option<string>)

  /**
    The file's static variables, then the three environment variables it reads and writes.
    `curDev` is the place of the current device on the list.
   */
  datatype State = State(
    ids: seq<MtdId>,
    devices: seq<Device>,
    curDev: Option<nat>,
    curPart: nat,
    lastIds: string,
    lastParts: string,
    lastPartition: string,
    useDefaults: bool,
    mtdids: Option<string>,
    mtdparts: Option<string>,
    partition: Option<string>)

  datatype Outcome = Outcome(s: State, ok: bool)

  const BOOT: State := State([], [], None, 0, "", "", "", true, None, None, None)

  // ---- device names

  datatype DevId = NoDevId | DevId(devType: nat, num: nat, rest: string)

  function TypeName(devType: nat): string {
    if devType == NAND then "nand"
    else if devType == NOR then "nor"
    else if devType == ONENAND then "onenand"
    else "spi-nand"
  }

  function DevNum(devType: nat, s: string): DevId {
    if '0' <= Head(s) <= '9' then var n := Strtoull(s); DevId(devType, n.value % 256, n.rest) else NoDevId
  }

  function MtdIdParse(s: string): DevId {
    if "nand" <= s then DevNum(NAND, s[4..])
    else if "nor" <= s then DevNum(NOR, s[3..])
    else if "onenand" <= s then DevNum(ONENAND, s[7..])
    else if "spi-nand" <= s then DevNum(SPINAND, s[8..])
    else NoDevId
  }

  lemma MtdIdParseShrinks(s: string)
    ensures var r := MtdIdParse(s); r.DevId? ==> |r.rest| < |s|
  {
    var r := MtdIdParse(s);
    if r.DevId? {
      var t := if "nand" <= s then s[4..] else if "nor" <= s then s[3..] else if "onenand" <= s then s[7..] else s[8..];
      ScanDigitsStops(SkipRadix(t), Radix(t), 0);
    }
  }

  // ---- mtdids

  function IdFind(ids: seq<MtdId>, devType: nat, num: nat): Option<MtdId> {
    if ids == [] then None
    else if ids[0].devType == devType && ids[0].num == num then Some(ids[0])
    else IdFind(ids[1..], devType, num)
  }

  datatype Ids = Ids(ok: bool, list: seq<MtdId>)

  /** The mapping entries; a device the board does not have stops the scan with the list as it is. */
  function ParseIds(hw: Hardware, acc: seq<MtdId>, s: string): Ids
    decreases |s|
  {
    MtdIdParseShrinks(s);
    var d := MtdIdParse(s);
    if d.NoDevId? || Head(d.rest) != '=' then Ids(false, [])
    else if (d.devType, d.num) !in hw then Ids(false, acc)
    else if IdFind(acc, d.devType, d.num).Some? then Ids(false, [])
    else
      var t := d.rest[1..];
      var k := Find(t, ',');
      var acc' := acc + [MtdId(d.devType, d.num, hw[(d.devType, d.num)].size, t[..k])];
      if k == |t| || k + 1 == |t| then Ids(true, acc') else ParseIds(hw, acc', t[k + 1..])
  }

  // ---- the current partition

  function PartitionText(id: MtdId, part: nat): string {
    TypeName(id.devType) + Decimal(id.num) + "," + Decimal(part)
  }

  /** Publishes the current partition in the environment. */
  function CurrentSave(s: State): State {
    if s.curDev.Some? && s.curDev.value < |s.devices| then
      var text := PartitionText(s.devices[s.curDev.value].id, s.curPart);
      s.(partition := Some(text), lastPartition := text)
    else s.(partition := None, lastPartition := "")
  }

  /** A partition found by name or by "<dev-id>,<number>": device place, number, partition place. */
  datatype Found = NotFound | Found(dev: nat, num: nat, part: nat)

  function NameIn(ps: seq<Part>, name: string): (k: nat)
    ensures k <= |ps|
    ensures k < |ps| ==> ps[k].name == name
    ensures forall i | 0 <= i < k :: ps[i].name != name
  {
    if ps == [] || ps[0].name == name then 0 else NameIn(ps[1..], name) + 1
  }

  function FindByName(devs: seq<Device>, from: nat, name: string): Found
    requires from <= |devs|
    decreases |devs| - from
  {
    if from == |devs| then NotFound
    else
      var k := NameIn(devs[from].parts, name);
      if k < |devs[from].parts| then Found(from, k % 256, k) else FindByName(devs, from + 1, name)
  }

  function FindByNumber(devs: seq<Device>, id: string): Found {
    var d := MtdIdParse(id);
    if d.NoDevId? || |d.rest| < 2 || d.rest[0] != ',' then NotFound
    else
      var n := Strtoull(d.rest[1..]);
      var k := DeviceFind(devs, d.devType, d.num);
      if n.rest != "" || k == |devs| || n.value % 256 >= devs[k].numParts then NotFound
      else Found(k, n.value % 256, n.value % 256)
  }

  function FindDevAndPart(devs: seq<Device>, id: string): Found {
    var r := FindByName(devs, 0, id);
    if r.Found? then r else FindByNumber(devs, id)
  }

  function Choose(s: State, f: Found): State
    requires f.Found?
  {
    CurrentSave(s.(curDev := Some(f.dev), curPart := f.num))
  }

  function ChoosePart(s: State, id: string): Outcome {
    var f := FindDevAndPart(s.devices, id);
    if f.Found? then Outcome(Choose(s, f), true) else Outcome(s, false)
  }

  // ---- the lists

  function DevicesInit(s: State): State {
    CurrentSave(s.(lastParts := "", curDev := None)).(devices := [])
  }

  function DeviceAdd(s: State, dev: Device): State {
    if s.devices == [] then CurrentSave(s.(devices := [dev], curDev := Some(0), curPart := 0))
    else s.(devices := s.devices + [dev])
  }

  function DeviceDel(s: State, k: nat): State
    requires k < |s.devices|
  {
    var devs := s.devices[..k] + s.devices[k + 1..];
    if s.curDev == Some(k) then
      if devs == [] then CurrentSave(s.(devices := devs, curDev := None))
      else CurrentSave(s.(devices := devs, curDev := Some(0), curPart := 0))
    else if s.curDev.Some? && s.curDev.value > k then s.(devices := devs, curDev := Some(s.curDev.value - 1))
    else s.(devices := devs)
  }

  /** The current number after linking a partition at place `k`, or None when it stays. */
  function IndexAfterAdd(parts: seq<Part>, cur: nat, k: nat): Option<nat> {
    if k < |parts| && cur < |parts| && parts[k].offset <= parts[cur].offset then Some((cur + 1) % 256) else None
  }

  /** The current number after unlinking the partition at place `i`. */
  function IndexAfterDel(parts: seq<Part>, cur: nat, i: nat): nat
    requires cur < |parts| && i < |parts|
  {
    if cur == i then 0
    else if parts[i].offset <= parts[cur].offset then (cur + 255) % 256
    else cur
  }

  function PartAdd(s: State, k: nat, part: Part, hw: Hardware): Outcome
    requires k < |s.devices|
  {
    var dev := s.devices[k];
    var v := Validate(hw, dev.id, part);
    if v.None? then Outcome(s, false)
    else
      var parts := SortInsert(dev.parts, v.value);
      if parts.None? then Outcome(s, false)
      else
        var s' := s.(devices := s.devices[k := dev.(numParts := dev.numParts + 1, parts := parts.value)]);
        var n := IndexAfterAdd(dev.parts, s.curPart, InsertPos(dev.parts, v.value.offset));
        Outcome(if s.curDev == Some(k) && n.Some? then CurrentSave(s'.(curPart := n.value)) else s', true)
  }

  function PartDel(s: State, k: nat, i: nat): State
    requires k < |s.devices| && i < |s.devices[k].parts|
  {
    var dev := s.devices[k];
    if dev.numParts <= 1 then DeviceDel(s, k)
    else
      var dev' := dev.(numParts := dev.numParts - 1, parts := dev.parts[..i] + dev.parts[i + 1..]);
      var s' := s.(devices := s.devices[k := dev']);
      if s.curDev == Some(k) && s.curPart < |dev.parts|
      then CurrentSave(s'.(curPart := IndexAfterDel(dev.parts, s.curPart, i)))
      else s'
  }

  // ---- print and parse

  function GenerateSave(s: State): Outcome {
    var text := PrintTable(s.devices);
    if |text| > MTDPARTS_MAXLEN - 1 then Outcome(s.(lastParts := "", mtdparts := None), false)
    else Outcome(s.(lastParts := text, mtdparts := if text == "" then None else Some(text)), true)
  }

  function ParseMtdparts(hw: Hardware, s: State, text: string): Outcome {
    var s' := DevicesInit(s);
    var r := ParseTable(hw, s'.ids, text);
    if r.None? then Outcome(s', false) else Outcome(s'.(devices := r.value), true)
  }

  /** mtdids: re-parsed when its text changed, with the device list dropped if that fails. */
  function SyncIds(b: Board, s: State, ids: string): Outcome {
    if s.lastIds != "" && s.lastIds == ids then Outcome(s, true)
    else
      var r := ParseIds(b.hw, [], ids);
      var s' := s.(ids := r.list, lastIds := "");
      if r.ok then Outcome(s'.(lastIds := ids), true) else Outcome(DevicesInit(s'), false)
  }

  /** mtdparts: re-parsed only when its text or the ids changed. */
  function SyncParts(b: Board, s: State, parts: string, idsChanged: bool): Outcome {
    if s.lastParts != "" && s.lastParts == parts && !idsChanged then Outcome(s, true)
    else
      var r := ParseMtdparts(b.hw, s, parts);
      if !r.ok || r.s.devices == [] then Outcome(r.s, false)
      else Outcome(CurrentSave(r.s.(lastParts := parts, curDev := Some(0), curPart := 0)), true)
  }

  /** partition: followed when it was changed from outside. */
  function SyncCurrent(s: State, wanted: string): State {
    if wanted != "" && wanted != s.lastPartition then
      var f := FindDevAndPart(s.devices, wanted);
      if f.Found? then Choose(s, f) else s
    else if s.partition.None? then CurrentSave(s)
    else s
  }

  function Init(b: Board, s: State): Outcome {
    var wanted := if s.partition.None? then "" else Clip(s.partition.value, PARTITION_MAXLEN);
    if s.mtdids.None? && b.idsDefault.None? then Outcome(s, false)
    else
      var ids := if s.mtdids.Some? then s.mtdids.value else b.idsDefault.value;
      var s1 := s.(mtdids := EnvValue(Some(ids)));
      if |ids| > MTDIDS_MAXLEN - 1 then Outcome(s1, false) else InitParts(b, s1, ids, wanted)
  }

  function InitParts(b: Board, s: State, ids: string, wanted: string): Outcome {
    var takeDefault := s.mtdparts.None? && b.partsDefault.Some? && s.useDefaults;
    var parts := if takeDefault then b.partsDefault else s.mtdparts;
    var s1 := if takeDefault then s.(mtdparts := EnvValue(parts), useDefaults := false) else s;
    if parts.Some? && |parts.value| > MTDPARTS_MAXLEN - 1 then Outcome(s1, false)
    else
      var r2 := SyncIds(b, s1, ids);
      if !r2.ok then r2
      else if parts.None? then Outcome(if r2.s.lastParts != "" then DevicesInit(r2.s) else r2.s, true)
      else
        var r3 := SyncParts(b, r2.s, parts.value, s.lastIds == "" || s.lastIds != ids);
        if !r3.ok then r3 else Outcome(SyncCurrent(r3.s, wanted), true)
  }

  /** An empty value is the same as none. */
  function EnvValue(v: Option<string>): Option<string> {
    if v == Some("") then None else v
  }

  function Clip(s: string, n: nat): string {
    if |s| <= n then s else s[..n]
  }

  // ---- the commands

  datatype Command =
    | List
    | Default
    | DelAll
    | Add(dev: string, def: string, name: string, flags: string)
    | Del(id: string)
    | Chpart(id: string)
    | SetIds(value: Option<string>)
    | SetParts(value: Option<string>)
    | SetPartition(value: Option<string>)

  function AddPart(b: Board, s: State, c: Command): Outcome
    requires c.Add?
  {
    var d := MtdIdParse(c.dev);
    if d.NoDevId? then Outcome(s, false)
    else
      var id := IdFind(s.ids, d.devType, d.num);
      if id.None? || DescLen(id.value, c) >= PART_ADD_DESC_MAXLEN then Outcome(s, false)
      else
        var r := ParseDevice(b.hw, s.ids, s.devices, id.value.mtdId + ":" + c.def + "(" + c.name + ")" + c.flags);
        if r.NoDevice? then Outcome(s, false)
        else
          var k := DeviceFind(s.devices, r.dev.id.devType, r.dev.id.num);
          var added := if k == |s.devices| then Outcome(DeviceAdd(s, r.dev), true)
                       else if r.dev.parts == [] then Outcome(s, false)
                       else PartAdd(s, k, r.dev.parts[0], b.hw);
          if !added.ok then added else GenerateSave(added.s)
  }

  function DescLen(id: MtdId, c: Command): nat
    requires c.Add?
  {
    |id.mtdId| + 1 + |c.def| + |c.name| + 2 + (if |c.flags| == 2 then 2 else 0)
  }

  function DelPart(s: State, id: string): Outcome {
    var f := FindDevAndPart(s.devices, id);
    if f.NotFound? || f.dev >= |s.devices| || f.part >= |s.devices[f.dev].parts| then Outcome(s, false)
    else GenerateSave(PartDel(s, f.dev, f.part))
  }

  function Exec(b: Board, s: State, c: Command): Outcome {
    if c.SetIds? then Outcome(s.(mtdids := EnvValue(c.value)), true)
    else if c.SetParts? then Outcome(s.(mtdparts := EnvValue(c.value)), true)
    else if c.SetPartition? then Outcome(s.(partition := EnvValue(c.value)), true)
    else if c.Default? then
      Outcome(Init(b, s.(mtdids := None, mtdparts := None, partition := None, useDefaults := true)).s, true)
    else if c.DelAll? then Outcome(DevicesInit(Init(b, s).s.(mtdparts := None)), true)
    else
      var r := Init(b, s);
      if !r.ok || c.List? then r
      else if c.Add? then AddPart(b, r.s, c)
      else if c.Del? then DelPart(r.s, c.id)
      else ChoosePart(r.s, c.id)
  }

  /** The state after a run of commands from power-on. */
  function Run(b: Board, cs: seq<Command>): State {
    if cs == [] then BOOT else Exec(b, Run(b, cs[..|cs| - 1]), cs[|cs| - 1]).s
  }
}
