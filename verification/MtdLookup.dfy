/** Names and numbers of cmd/mtdparts.c: the ids that are parsed, and the partitions that names and numbers find. */
module MtdLookup {
  import opened Base
  import opened NumText
  import opened PartText
  import opened PartList
  import opened DeviceText
  import opened TableRoundTrip
  import opened MtdState
  import opened MtdProofs

  // ---- the mtdids list

  ghost predicate OneSlotEach(ids: seq<MtdId>) {
    forall i, j | 0 <= i < j < |ids| :: ids[i].devType != ids[j].devType || ids[i].num != ids[j].num
  }

  ghost predicate KnownType(t: nat) { t == NAND || t == NOR || t == ONENAND || t == SPINAND }

  /** A device the board has, with its size, under a name without a comma. */
  ghost predicate IdOk(hw: Hardware, id: MtdId) {
    && KnownType(id.devType) && id.num < 256 && ',' !in id.mtdId
    && (id.devType, id.num) in hw && id.size == hw[(id.devType, id.num)].size
  }

  ghost predicate IdsOk(hw: Hardware, ids: seq<MtdId>) {
    OneSlotEach(ids) && forall i | 0 <= i < |ids| :: IdOk(hw, ids[i])
  }

  lemma {:induction false} IdNotFound(ids: seq<MtdId>, devType: nat, num: nat)
    requires IdFind(ids, devType, num).None?
    ensures forall i | 0 <= i < |ids| :: ids[i].devType != devType || ids[i].num != num
  {
    if ids != [] {
      IdNotFound(ids[1..], devType, num);
      assert forall i | 0 < i < |ids| :: ids[i] == ids[1..][i - 1];
    }
  }

  lemma SlotAdded(hw: Hardware, ids: seq<MtdId>, id: MtdId)
    requires IdsOk(hw, ids) && IdOk(hw, id) && IdFind(ids, id.devType, id.num).None?
    ensures IdsOk(hw, ids + [id])
  {
    hide IdOk;
    IdNotFound(ids, id.devType, id.num);
  }

  lemma DevNumByte(s: string)
    ensures var d := MtdIdParse(s); d.DevId? ==> KnownType(d.devType) && d.num < 256
  {
    hide Strtoull;
  }

  /** Whatever the text: no device twice, only devices of the board, and never an empty list on success. */
  lemma {:induction false} ParsedIdsOk(hw: Hardware, acc: seq<MtdId>, s: string)
    requires IdsOk(hw, acc)
    ensures var r := ParseIds(hw, acc, s); IdsOk(hw, r.list) && (r.ok ==> |r.list| > |acc|)
    decreases |s|
  {
    hide MtdIdParse, IdsOk, KnownType;
    NoIds(hw);
    MtdIdParseShrinks(s);
    DevNumByte(s);
    var d := MtdIdParse(s);
    if d.DevId? && Head(d.rest) == '=' && (d.devType, d.num) in hw && IdFind(acc, d.devType, d.num).None? {
      var t := d.rest[1..];
      var k := Find(t, ',');
      var id := MtdId(d.devType, d.num, hw[(d.devType, d.num)].size, t[..k]);
      SlotAdded(hw, acc, id);
      if k + 1 < |t| { ParsedIdsOk(hw, acc + [id], t[k + 1..]); }
    }
  }

  lemma NoIds(hw: Hardware)
    ensures IdsOk(hw, [])
  {
  }

  // ---- partitions by name and by number

  ghost predicate Named(devs: seq<Device>, d: int, i: int, name: string) {
    0 <= d < |devs| && 0 <= i < |devs[d].parts| && devs[d].parts[i].name == name
  }

  /** The first partition of that name, device by device, or none at all. */
  lemma {:induction false} FirstOfName(devs: seq<Device>, from: nat, name: string)
    requires from <= |devs|
    ensures var f := FindByName(devs, from, name);
            && (f.Found? ==> from <= f.dev && Named(devs, f.dev, f.part, name) && f.num == f.part % 256)
            && forall d, i | Named(devs, d, i, name) && from <= d ::
                 f.Found? && (f.dev < d || (f.dev == d && f.part <= i))
    decreases |devs| - from
  {
    if from < |devs| && NameIn(devs[from].parts, name) == |devs[from].parts| { FirstOfName(devs, from + 1, name); }
  }

  /** A device name with its number is read back, in front of any text that cannot extend the number. */
  lemma DevIdReadsBack(t: nat, num: nat, rest: string)
    requires KnownType(t) && num < 256 && Head(rest) == ','
    ensures MtdIdParse(TypeName(t) + Decimal(num) + rest) == DevId(t, num, rest)
  {
    hide Decimal, Strtoull;
    var digits := Decimal(num) + rest;
    var name := TypeName(t);
    var s := name + Decimal(num) + rest;
    assert s == name + digits && s[|name|..] == digits;
    DecimalHead(num);
    StrtoullDecimal(num, rest);
    StopsAtComma(rest, num);
    assert Head(digits) == Decimal(num)[0];
    TypePrefix(t, digits);
  }

  lemma StopsAtComma(rest: string, n: u64)
    requires Head(rest) == ',' || rest == ""
    ensures ScanDigits(rest, 10, n) == Num(n, rest)
  {
  }

  lemma TypePrefix(t: nat, digits: string)
    requires KnownType(t) && '0' <= Head(digits) <= '9'
    ensures MtdIdParse(TypeName(t) + digits) == DevNum(t, digits)
  {
    hide DevNum;
    var s := TypeName(t) + digits;
    assert s[|TypeName(t)|..] == digits;
    assert TypeName(t) <= s;
    assert s[0] == TypeName(t)[0] && s[1] == TypeName(t)[1];
  }

  /** The number of a partition, at the end of the text. */
  lemma NumberReadsBack(part: nat)
    requires part < 256
    ensures Strtoull(Decimal(part)) == Num(part, "")
  {
    if part == 0 {
      assert Decimal(0) == "0";
      assert ScanDigits("0", 8, 0) == ScanDigits("0"[1..], 8, 0);
    } else {
      StrtoullDecimal(part, "");
      assert Decimal(part) + "" == Decimal(part);
      StopsAtComma("", part);
    }
  }

  /** The text published for the current partition addresses that partition. */
  lemma TextFindsPart(hw: Hardware, devs: seq<Device>, k: nat, part: nat)
    requires TableOk(hw, devs) && k < |devs| && part < |devs[k].parts| && part < 256
    requires IdOk(hw, devs[k].id)
    ensures FindByNumber(devs, PartitionText(devs[k].id, part)) == Found(k, part, part)
  {
    hide MtdIdParse, Strtoull, Decimal, TypeName, PartsOk, Sorted, OneAtZero;
    var id := devs[k].id;
    var rest := "," + Decimal(part);
    assert PartitionText(id, part) == TypeName(id.devType) + Decimal(id.num) + rest;
    DevIdReadsBack(id.devType, id.num, rest);
    assert rest[1..] == Decimal(part);
    DecimalHead(part);
    NumberReadsBack(part);
    assert DeviceOk(hw, devs[k]);
    assert forall i | 0 <= i < k :: !SameSlot(devs[i], devs[k]);
    assert DeviceFind(devs, id.devType, id.num) == k;
  }

  /** No other partition bears the text as its name, or the one meant does and comes first. */
  ghost predicate Unclaimed(devs: seq<Device>, k: nat, part: nat, text: string) {
    forall d, i | Named(devs, d, i, text) && (d != k || i != part) ::
      Named(devs, k, part, text) && (k < d || (k == d && part < i))
  }

  /** What current_save publishes, find_dev_and_part resolves to the same partition, exactly when no name interferes. */
  lemma CurrentIsFoundAgain(hw: Hardware, devs: seq<Device>, k: nat, part: nat)
    requires TableOk(hw, devs) && k < |devs| && part < |devs[k].parts| && part < 256
    requires IdOk(hw, devs[k].id)
    ensures var text := PartitionText(devs[k].id, part);
            FindDevAndPart(devs, text) == Found(k, part, part) <==> Unclaimed(devs, k, part, text)
  {
    hide FindByName, FindByNumber, PartitionText, TableOk, IdOk;
    var text := PartitionText(devs[k].id, part);
    TextFindsPart(hw, devs, k, part);
    FirstOfName(devs, 0, text);
  }

  // ---- in every run

  /** Every device on the list is one of the board. */
  ghost predicate KnownDevices(hw: Hardware, devs: seq<Device>) {
    forall i | 0 <= i < |devs| :: IdOk(hw, devs[i].id)
  }

  ghost predicate Known(b: Board, s: State) {
    IdsOk(b.hw, s.ids) && KnownDevices(b.hw, s.devices)
  }

  lemma ParsedDeviceKnown(hw: Hardware, ids: seq<MtdId>, devs: seq<Device>, s: string)
    requires IdsOk(hw, ids)
    ensures var r := ParseDevice(hw, ids, devs, s); r.ParsedDevice? ==> IdOk(hw, r.dev.id)
  {
    hide ParseDevice, IdOk;
    ParseDeviceNamed(hw, ids, devs, s);
    var r := ParseDevice(hw, ids, devs, s);
    if r.ParsedDevice? { IdByNameNamed(ids, r.dev.id.mtdId); }
  }

  lemma {:induction false} ParsedDevicesKnown(hw: Hardware, ids: seq<MtdId>, devs: seq<Device>, s: string)
    requires IdsOk(hw, ids) && KnownDevices(hw, devs)
    ensures var r := ParseDevices(hw, ids, devs, s); r.Some? ==> KnownDevices(hw, r.value)
    decreases |s|
  {
    hide ParseDevice, IdsOk, IdOk, DeviceFind;
    if s != "" {
      ParseDeviceShrinks(hw, ids, devs, s);
      ParsedDeviceKnown(hw, ids, devs, s);
      var r := ParseDevice(hw, ids, devs, s);
      if r.ParsedDevice? && DeviceFind(devs, r.dev.id.devType, r.dev.id.num) == |devs| {
        ParsedDevicesKnown(hw, ids, devs + [r.dev], r.rest);
      }
    }
  }

  lemma SyncIdsKnown(b: Board, s: State, ids: string)
    requires Known(b, s)
    ensures Known(b, SyncIds(b, s, ids).s)
  {
    hide ParseIds, IdsOk;
    NoIds(b.hw);
    ParsedIdsOk(b.hw, [], ids);
  }

  lemma SyncPartsKnown(b: Board, s: State, parts: string, idsChanged: bool)
    requires Known(b, s)
    ensures Known(b, SyncParts(b, s, parts, idsChanged).s)
  {
    hide ParseDevices, IdsOk, IdOk;
    var t := if PREFIX <= parts then parts[9..] else parts;
    if t != "" { ParsedDevicesKnown(b.hw, s.ids, [], t); }
  }

  lemma SyncCurrentKnown(b: Board, s: State, wanted: string)
    requires Known(b, s)
    ensures Known(b, SyncCurrent(s, wanted))
  {
    SyncCurrentFrame(s, wanted);
  }

  lemma InitPartsKnown(b: Board, s: State, ids: string, wanted: string)
    requires Known(b, s)
    ensures Known(b, InitParts(b, s, ids, wanted).s)
  {
    hide SyncIds, SyncParts, SyncCurrent, IdsOk, IdOk;
    var takeDefault := s.mtdparts.None? && b.partsDefault.Some? && s.useDefaults;
    var parts := if takeDefault then b.partsDefault else s.mtdparts;
    var s1 := if takeDefault then s.(mtdparts := EnvValue(parts), useDefaults := false) else s;
    SyncIdsKnown(b, s1, ids);
    var r2 := SyncIds(b, s1, ids);
    if parts.Some? {
      var changed := s.lastIds == "" || s.lastIds != ids;
      SyncPartsKnown(b, r2.s, parts.value, changed);
      SyncCurrentKnown(b, SyncParts(b, r2.s, parts.value, changed).s, wanted);
    }
  }

  lemma InitKnown(b: Board, s: State)
    requires Known(b, s)
    ensures Known(b, Init(b, s).s)
  {
    hide InitParts, IdsOk, IdOk;
    if s.mtdids.Some? || b.idsDefault.Some? {
      var wanted := if s.partition.None? then "" else Clip(s.partition.value, PARTITION_MAXLEN);
      var ids := if s.mtdids.Some? then s.mtdids.value else b.idsDefault.value;
      InitPartsKnown(b, s.(mtdids := EnvValue(Some(ids))), ids, wanted);
    }
  }

  lemma PartAddKnown(b: Board, s: State, k: nat, part: Part)
    requires Known(b, s) && k < |s.devices|
    ensures Known(b, PartAdd(s, k, part, b.hw).s)
  {
    hide Validate, SortInsert, IdsOk, IdOk;
  }

  lemma AddKnown(b: Board, s: State, c: Command)
    requires Known(b, s) && c.Add?
    ensures Known(b, AddPart(b, s, c).s)
  {
    hide ParseDevice, PartAdd, PrintTable, IdsOk, IdOk, MtdIdParse, IdFind;
    var d := MtdIdParse(c.dev);
    if d.DevId? && IdFind(s.ids, d.devType, d.num).Some? {
      var text := IdFind(s.ids, d.devType, d.num).value.mtdId + ":" + c.def + "(" + c.name + ")" + c.flags;
      ParsedDeviceKnown(b.hw, s.ids, s.devices, text);
      var r := ParseDevice(b.hw, s.ids, s.devices, text);
      if r.ParsedDevice? {
        var k := DeviceFind(s.devices, r.dev.id.devType, r.dev.id.num);
        if k < |s.devices| && r.dev.parts != [] { PartAddKnown(b, s, k, r.dev.parts[0]); }
      }
    }
  }

  lemma DelKnown(b: Board, s: State, id: string)
    requires Known(b, s)
    ensures Known(b, DelPart(s, id).s)
  {
    hide FindDevAndPart, PrintTable, IdsOk, IdOk, PartDel;
    var f := FindDevAndPart(s.devices, id);
    if f.Found? && f.dev < |s.devices| && f.part < |s.devices[f.dev].parts| { PartDelKnown(b, s, f.dev, f.part); }
  }

  lemma PartDelKnown(b: Board, s: State, k: nat, i: nat)
    requires Known(b, s) && k < |s.devices| && i < |s.devices[k].parts|
    ensures Known(b, PartDel(s, k, i))
  {
    hide IdsOk, IdOk, IndexAfterDel, CurrentSave, DeviceDel, KnownDevices;
    DeviceDelKnown(b, s, k);
    var dev := s.devices[k];
    if dev.numParts > 1 {
      var dev' := dev.(numParts := dev.numParts - 1, parts := dev.parts[..i] + dev.parts[i + 1..]);
      OneChanged(b.hw, s.devices, k, dev');
      var t := s.(devices := s.devices[k := dev']);
      if s.curPart < |dev.parts| { Saved(t.(curPart := IndexAfterDel(dev.parts, s.curPart, i))); }
    }
  }

  lemma DeviceDelKnown(b: Board, s: State, k: nat)
    requires Known(b, s) && k < |s.devices|
    ensures Known(b, DeviceDel(s, k))
  {
    hide IdsOk, IdOk, CurrentSave, KnownDevices;
    var devs := s.devices[..k] + s.devices[k + 1..];
    OneDropped(b.hw, s.devices, k);
    Saved(s.(devices := devs, curDev := None));
    Saved(s.(devices := devs, curDev := Some(0), curPart := 0));
  }

  lemma OneChanged(hw: Hardware, devs: seq<Device>, k: nat, dev: Device)
    requires KnownDevices(hw, devs) && k < |devs| && dev.id == devs[k].id
    ensures KnownDevices(hw, devs[k := dev])
  {
    hide IdOk;
  }

  lemma OneDropped(hw: Hardware, devs: seq<Device>, k: nat)
    requires KnownDevices(hw, devs) && k < |devs|
    ensures KnownDevices(hw, devs[..k] + devs[k + 1..])
  {
    hide IdOk;
    var rest := devs[..k] + devs[k + 1..];
    assert forall j | 0 <= j < |rest| :: rest[j] == devs[if j < k then j else j + 1];
  }

  lemma Saved(s: State)
    ensures CurrentSave(s).ids == s.ids && CurrentSave(s).devices == s.devices
  {
  }

  lemma ExecKnown(b: Board, s: State, c: Command)
    requires Known(b, s)
    ensures Known(b, Exec(b, s, c).s)
  {
    hide Init, AddPart, DelPart, FindDevAndPart, IdsOk, IdOk;
    InitKnown(b, s);
    InitKnown(b, s.(mtdids := None, mtdparts := None, partition := None, useDefaults := true));
    var t := Init(b, s).s;
    if c.Add? { AddKnown(b, t, c); }
    if c.Del? { DelKnown(b, t, c.id); }
  }

  /** In every run: no device of the mtdids list or of the table is unknown to the board. */
  lemma {:induction false} RunKnown(b: Board, cs: seq<Command>)
    ensures Known(b, Run(b, cs))
  {
    hide Exec, IdsOk, IdOk;
    if cs == [] {
      NoIds(b.hw);
    } else {
      RunKnown(b, cs[..|cs| - 1]);
      ExecKnown(b, Run(b, cs[..|cs| - 1]), cs[|cs| - 1]);
    }
  }

  /**
    After every run from power-on, and for each partition an 8-bit number can name: the text published for
    it is resolved to it exactly when no name interferes.
   */
  lemma RunFindsCurrent(b: Board, cs: seq<Command>, k: nat, part: nat)
    requires var devs := Run(b, cs).devices; k < |devs| && part < |devs[k].parts| && part < 256
    ensures var devs := Run(b, cs).devices;
            var text := PartitionText(devs[k].id, part);
            FindDevAndPart(devs, text) == Found(k, part, part) <==> Unclaimed(devs, k, part, text)
  {
    hide Run, Unclaimed, FindDevAndPart, PartitionText, IdOk, IdsOk, TableOk;
    RunKeeps(b, cs);
    RunKnown(b, cs);
    CurrentIsFoundAgain(b.hw, Run(b, cs).devices, k, part);
  }
}
