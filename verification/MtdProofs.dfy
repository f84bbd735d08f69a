/** What every run of `mtdparts` commands keeps, and when the parsed table agrees with the environment. */
module MtdProofs {
  import opened Base
  import opened NumText
  import opened PartText
  import opened PartList
  import opened DeviceText
  import opened TableRoundTrip
  import opened MtdState

  /** A well-formed table, with a current device exactly when there is one. */
  ghost predicate Inv(b: Board, s: State) {
    && TableOk(b.hw, s.devices)
    && (s.curDev.Some? <==> s.devices != [])
    && (s.curDev.Some? ==> s.curDev.value < |s.devices|)
    && s.curPart < 256
  }

  // ---- parsed tables are well-formed

  lemma {:induction false} ParseDefsOk(hw: Hardware, id: MtdId, s: string, offset: u64)
    ensures var r := ParseDefs(hw, id, s, offset); r.Defs? ==> PartsOk(hw, id, r.parts)
    decreases |s|
  {
    hide ParsePart, Validate;
    if s != "" && s[0] != ';' {
      ParsePartShape(s);
      var r := ParsePart(s);
      if r.ParsedPart? {
        var v := Validate(hw, id, Placed(r.part, offset));
        if v.Some? {
          ValidateSettles(hw, id, Placed(r.part, offset));
          ParseDefsOk(hw, id, r.rest, End(v.value));
        }
      }
    }
  }

  /** What a device list keeps under sorted insertion. */
  ghost predicate PartsFit(hw: Hardware, id: MtdId, ps: seq<Part>) {
    PartsOk(hw, id, ps) && Sorted(ps) && OneAtZero(ps)
  }

  lemma SortInsertFits(hw: Hardware, id: MtdId, ps: seq<Part>, p: Part)
    requires PartsFit(hw, id, ps) && PartOk(hw, id, p)
    ensures var r := SortInsert(ps, p); r.Some? ==> PartsFit(hw, id, r.value) && |r.value| == |ps| + 1
  {
    hide PartOk;
    var r := SortInsert(ps, p);
    if r.Some? {
      SortInsertSorted(ps, p);
      var k := InsertPos(ps, p.offset);
      assert forall i | 0 <= i < |r.value| :: r.value[i] == (if i < k then ps[i] else if i == k then p else ps[i - 1]);
    }
  }

  lemma {:induction false} InsertAllFits(hw: Hardware, id: MtdId, ps: seq<Part>)
    requires PartsOk(hw, id, ps)
    ensures var r := InsertAll(ps); r.Some? ==> PartsFit(hw, id, r.value) && |r.value| == |ps|
  {
    hide PartOk, SortInsert;
    if ps != [] {
      InsertAllFits(hw, id, ps[..|ps| - 1]);
      var r := InsertAll(ps[..|ps| - 1]);
      if r.Some? { SortInsertFits(hw, id, r.value, ps[|ps| - 1]); }
    }
  }

  lemma ParseDeviceOk(hw: Hardware, ids: seq<MtdId>, devs: seq<Device>, s: string)
    ensures var r := ParseDevice(hw, ids, devs, s); r.ParsedDevice? ==> DeviceOk(hw, r.dev)
  {
    hide ParseDefs, InsertAll, PartsOk, Sorted, OneAtZero;
    var r := ParseDevice(hw, ids, devs, s);
    if r.ParsedDevice? {
      ParseDeviceNamed(hw, ids, devs, s);
      var k := Find(s, ':');
      var id := IdByName(ids, s[..k]).value;
      ParseDefsOk(hw, id, s[k + 1..], StartOffset(devs, id));
      InsertAllFits(hw, id, ParseDefs(hw, id, s[k + 1..], StartOffset(devs, id)).parts);
    }
  }

  lemma SnocOk(hw: Hardware, devs: seq<Device>, dev: Device)
    requires TableOk(hw, devs) && DeviceOk(hw, dev)
    requires DeviceFind(devs, dev.id.devType, dev.id.num) == |devs|
    ensures TableOk(hw, devs + [dev])
  {
    hide DeviceOk;
  }

  lemma {:induction false} ParseDevicesOk(hw: Hardware, ids: seq<MtdId>, devs: seq<Device>, s: string)
    requires TableOk(hw, devs)
    ensures var r := ParseDevices(hw, ids, devs, s); r.Some? ==> TableOk(hw, r.value)
    decreases |s|
  {
    hide TableOk, DeviceOk, ParseDevice, DeviceFind;
    if s != "" {
      ParseDeviceShrinks(hw, ids, devs, s);
      ParseDeviceOk(hw, ids, devs, s);
      var r := ParseDevice(hw, ids, devs, s);
      if r.ParsedDevice? && DeviceFind(devs, r.dev.id.devType, r.dev.id.num) == |devs| {
        SnocOk(hw, devs, r.dev);
        ParseDevicesOk(hw, ids, devs + [r.dev], r.rest);
      }
    }
  }

  lemma ParseTableOk(hw: Hardware, ids: seq<MtdId>, s: string)
    ensures var r := ParseTable(hw, ids, s); r.Some? ==> TableOk(hw, r.value) && r.value != []
  {
    var t := if PREFIX <= s then s[9..] else s;
    ParseDevicesOk(hw, ids, [], t);
    if t != "" { FirstDeviceStays(hw, ids, [], t); }
  }

  // ---- every command keeps the table well-formed

  lemma PartAddKeeps(b: Board, s: State, k: nat, part: Part)
    requires Inv(b, s) && k < |s.devices| && NameOk(part)
    ensures Inv(b, PartAdd(s, k, part, b.hw).s)
    ensures |PartAdd(s, k, part, b.hw).s.devices| == |s.devices|
  {
    hide Validate, SortInsert, PartsOk, Sorted, OneAtZero, InsertPos;
    var dev := s.devices[k];
    var v := Validate(b.hw, dev.id, part);
    if v.Some? {
      ValidateSettles(b.hw, dev.id, part);
      assert DeviceOk(b.hw, dev);
      SortInsertFits(b.hw, dev.id, dev.parts, v.value);
    }
  }

  lemma DropFits(hw: Hardware, id: MtdId, ps: seq<Part>, i: nat)
    requires PartsFit(hw, id, ps) && i < |ps|
    ensures PartsFit(hw, id, ps[..i] + ps[i + 1..])
  {
    hide PartOk;
    var qs := ps[..i] + ps[i + 1..];
    assert forall j | 0 <= j < |qs| :: qs[j] == (if j < i then ps[j] else ps[j + 1]);
    if |qs| > 1 { assert ps[1].offset <= ps[2].offset; }
  }

  lemma DeviceDelKeeps(b: Board, s: State, k: nat)
    requires Inv(b, s) && k < |s.devices|
    ensures Inv(b, DeviceDel(s, k))
  {
    hide DeviceOk;
    var devs := s.devices[..k] + s.devices[k + 1..];
    assert forall i | 0 <= i < |devs| :: devs[i] == (if i < k then s.devices[i] else s.devices[i + 1]);
  }

  lemma PartDelKeeps(b: Board, s: State, k: nat, i: nat)
    requires Inv(b, s) && k < |s.devices| && i < |s.devices[k].parts|
    ensures Inv(b, PartDel(s, k, i))
  {
    hide PartsOk, Sorted, OneAtZero;
    var dev := s.devices[k];
    assert DeviceOk(b.hw, dev);
    if dev.numParts <= 1 {
      DeviceDelKeeps(b, s, k);
    } else {
      DropFits(b.hw, dev.id, dev.parts, i);
      assert DeviceOk(b.hw, dev.(numParts := dev.numParts - 1, parts := dev.parts[..i] + dev.parts[i + 1..]));
    }
  }

  lemma {:induction false} FoundByName(devs: seq<Device>, from: nat, name: string)
    requires from <= |devs|
    ensures var f := FindByName(devs, from, name);
            f.Found? ==> f.dev < |devs| && f.part < |devs[f.dev].parts| && f.num == f.part % 256
    decreases |devs| - from
  {
    if from < |devs| && NameIn(devs[from].parts, name) == |devs[from].parts| { FoundByName(devs, from + 1, name); }
  }

  /** Whatever is found is there. */
  lemma FoundIsThere(hw: Hardware, devs: seq<Device>, id: string)
    requires TableOk(hw, devs)
    ensures var f := FindDevAndPart(devs, id);
            f.Found? ==> f.dev < |devs| && f.part < |devs[f.dev].parts| && f.num == f.part % 256
  {
    hide PartsOk, Sorted, OneAtZero, Strtoull, MtdIdParse, FindByName, DeviceFind;
    FoundByName(devs, 0, id);
    var f := FindByNumber(devs, id);
    if f.Found? { assert DeviceOk(hw, devs[f.dev]); }
  }

  lemma ChoosePartKeeps(b: Board, s: State, id: string)
    requires Inv(b, s)
    ensures Inv(b, ChoosePart(s, id).s) && ChoosePart(s, id).s.devices == s.devices
  {
    FoundIsThere(b.hw, s.devices, id);
  }

  lemma SyncCurrentKeeps(b: Board, s: State, wanted: string)
    requires Inv(b, s)
    ensures Inv(b, SyncCurrent(s, wanted)) && SyncCurrent(s, wanted).devices == s.devices
  {
    FoundIsThere(b.hw, s.devices, wanted);
  }

  lemma SyncIdsKeeps(b: Board, s: State, ids: string)
    requires Inv(b, s)
    ensures Inv(b, SyncIds(b, s, ids).s)
  {
    hide ParseIds;
  }

  lemma SyncPartsKeeps(b: Board, s: State, parts: string, idsChanged: bool)
    requires Inv(b, s)
    ensures Inv(b, SyncParts(b, s, parts, idsChanged).s)
  {
    hide ParseTable, TableOk;
    assert TableOk(b.hw, []) by { EmptyOk(b.hw); }
    ParseTableOk(b.hw, s.ids, parts);
  }

  lemma EmptyOk(hw: Hardware)
    ensures TableOk(hw, [])
  {
  }

  lemma InitKeeps(b: Board, s: State)
    requires Inv(b, s)
    ensures Inv(b, Init(b, s).s)
  {
    hide SyncIds, SyncParts, SyncCurrent, TableOk;
    EmptyOk(b.hw);
    if s.mtdids.Some? || b.idsDefault.Some? {
      var ids := if s.mtdids.Some? then s.mtdids.value else b.idsDefault.value;
      var s1 := s.(mtdids := EnvValue(Some(ids)));
      var takeDefault := s1.mtdparts.None? && b.partsDefault.Some? && s1.useDefaults;
      var parts := if takeDefault then b.partsDefault else s1.mtdparts;
      var s2 := if takeDefault then s1.(mtdparts := EnvValue(parts), useDefaults := false) else s1;
      SyncIdsKeeps(b, s2, ids);
      if parts.Some? {
        var changed := s.lastIds == "" || s.lastIds != ids;
        SyncPartsKeeps(b, SyncIds(b, s2, ids).s, parts.value, changed);
        var wanted := if s.partition.None? then "" else Clip(s.partition.value, PARTITION_MAXLEN);
        SyncCurrentKeeps(b, SyncParts(b, SyncIds(b, s2, ids).s, parts.value, changed).s, wanted);
      }
    }
  }

  lemma AddPartKeeps(b: Board, s: State, c: Command)
    requires Inv(b, s) && c.Add?
    ensures Inv(b, AddPart(b, s, c).s)
    ensures AddPart(b, s, c).ok ==> AddPart(b, s, c).s.devices != []
  {
    hide ParseDevice, PrintTable, PartAdd, DeviceOk;
    var d := MtdIdParse(c.dev);
    if d.DevId? {
      var id := IdFind(s.ids, d.devType, d.num);
      if id.Some? {
        var text := id.value.mtdId + ":" + c.def + "(" + c.name + ")" + c.flags;
        ParseDeviceOk(b.hw, s.ids, s.devices, text);
        var r := ParseDevice(b.hw, s.ids, s.devices, text);
        if r.ParsedDevice? {
          var k := DeviceFind(s.devices, r.dev.id.devType, r.dev.id.num);
          if k == |s.devices| {
            SnocOk(b.hw, s.devices, r.dev);
            if s.devices == [] { assert s.devices + [r.dev] == [r.dev]; }
          } else if r.dev.parts != [] {
            FirstNameOk(b.hw, r.dev);
            PartAddKeeps(b, s, k, r.dev.parts[0]);
          }
        }
      }
    }
  }

  lemma FirstNameOk(hw: Hardware, dev: Device)
    requires DeviceOk(hw, dev)
    ensures dev.parts != [] && NameOk(dev.parts[0])
  {
    assert PartOk(hw, dev.id, dev.parts[0]);
  }

  lemma ExecKeeps(b: Board, s: State, c: Command)
    requires Inv(b, s)
    ensures Inv(b, Exec(b, s, c).s)
  {
    hide Init, AddPart, PartDel, TableOk, PrintTable, FindDevAndPart;
    EmptyOk(b.hw);
    InitKeeps(b, s);
    InitKeeps(b, s.(mtdids := None, mtdparts := None, partition := None, useDefaults := true));
    var r := Init(b, s);
    if c.Add? {
      AddPartKeeps(b, r.s, c);
    } else if c.Del? {
      var f := FindDevAndPart(r.s.devices, c.id);
      if f.Found? && f.dev < |r.s.devices| && f.part < |r.s.devices[f.dev].parts| {
        PartDelKeeps(b, r.s, f.dev, f.part);
      }
    } else if c.Chpart? {
      ChoosePartKeeps(b, r.s, c.id);
    }
  }

  /** Every reachable table is well-formed: sorted, valid, counted, with one entry per device. */
  lemma {:induction false} RunKeeps(b: Board, cs: seq<Command>)
    ensures Inv(b, Run(b, cs))
  {
    hide Exec, Inv;
    if cs == [] {
      assert Inv(b, BOOT) by { BootInv(b); }
    } else {
      RunKeeps(b, cs[..|cs| - 1]);
      ExecKeeps(b, Run(b, cs[..|cs| - 1]), cs[|cs| - 1]);
    }
  }

  lemma BootInv(b: Board)
    ensures Inv(b, BOOT)
  {
  }

  // ---- the current partition

  /** Linking a partition: the current number follows its partition, unless it is the last an 8-bit number can name. */
  lemma AddKeepsCurrent(parts: seq<Part>, p: Part, cur: nat)
    requires Sorted(parts) && cur < |parts| && cur < 256 && SortInsert(parts, p).Some?
    ensures var k := InsertPos(parts, p.offset);
            var moved := IndexAfterAdd(parts, cur, k);
            var place := if k <= cur then cur + 1 else cur;
            && SortInsert(parts, p).value[place] == parts[cur]
            && ((if moved.Some? then moved.value else cur) == place <==> !(cur == 255 && k <= cur))
  {
    hide InsertPos, IndexAfterAdd, Sorted;
    var k := InsertPos(parts, p.offset);
    PlaceAfterInsert(parts, p, k, cur);
    IndexMoves(parts, cur, k, p.offset);
  }

  lemma PlaceAfterInsert(parts: seq<Part>, p: Part, k: nat, cur: nat)
    requires k <= |parts| && cur < |parts|
    ensures (parts[..k] + [p] + parts[k..])[if k <= cur then cur + 1 else cur] == parts[cur]
  {
  }

  lemma IndexMoves(parts: seq<Part>, cur: nat, k: nat, offset: u64)
    requires Sorted(parts) && cur < |parts| && k <= |parts|
    requires forall i | 0 <= i < k :: parts[i].offset < offset
    requires k < |parts| ==> offset <= parts[k].offset
    ensures IndexAfterAdd(parts, cur, k) == if k <= cur then Some((cur + 1) % 256) else None
  {
  }

  /**
    Unlinking a partition other than the current one: the current number follows its partition
    exactly when the one removed was not a later one at the same offset.
   */
  lemma DelKeepsCurrent(parts: seq<Part>, cur: nat, i: nat)
    requires Sorted(parts) && cur < |parts| && cur < 256 && i < |parts| && i != cur
    ensures var place := if i < cur then cur - 1 else cur;
            && (parts[..i] + parts[i + 1..])[place] == parts[cur]
            && (IndexAfterDel(parts, cur, i) == place <==> !(cur < i && parts[i].offset == parts[cur].offset))
  {
  }

  /** Two partitions at one offset, the first of them current: unlinking the second moves the number to 255. */
  lemma DelLosesCurrent()
    ensures var a, b := Part("a", false, 8192, 4096, false), Part("b", false, 4096, 4096, false);
            Sorted([a, b]) && IndexAfterDel([a, b], 0, 1) == 255
  {
  }

  // ---- the cache

  ghost predicate IdsAgree(b: Board, s: State) {
    s.lastIds != "" ==> ParseIds(b.hw, [], s.lastIds) == Ids(true, s.ids)
  }

  /** What was remembered as parsed still stands for what is on the list. */
  ghost predicate Agree(b: Board, s: State) {
    && IdsAgree(b, s)
    && (s.lastParts != "" ==> Reads(ParseTable(b.hw, s.ids, s.lastParts), s.devices))
  }

  /** The device list is a fresh parse of the environment, generated names apart. */
  ghost predicate Fresh(b: Board, s: State) {
    && s.mtdids.Some? && s.mtdparts.Some?
    && var ids := ParseIds(b.hw, [], s.mtdids.value);
       ids.ok && Reads(ParseTable(b.hw, ids.list, s.mtdparts.value), s.devices)
  }

  lemma SyncCurrentFrame(s: State, wanted: string)
    ensures var t := SyncCurrent(s, wanted);
            && t.devices == s.devices && t.ids == s.ids && t.lastIds == s.lastIds && t.lastParts == s.lastParts
            && t.mtdids == s.mtdids && t.mtdparts == s.mtdparts
  {
    hide FindDevAndPart;
  }

  lemma SyncPartsAgrees(b: Board, s: State, parts: string, idsChanged: bool)
    requires IdsAgree(b, s) && (!idsChanged ==> Agree(b, s))
    ensures var r := SyncParts(b, s, parts, idsChanged);
            && Agree(b, r.s)
            && r.s.mtdids == s.mtdids && r.s.mtdparts == s.mtdparts && r.s.ids == s.ids && r.s.lastIds == s.lastIds
            && (r.ok ==> r.s.lastParts == parts && Reads(ParseTable(b.hw, s.ids, parts), r.s.devices))
  {
    hide ParseTable, ParseIds;
  }

  lemma SyncIdsAgrees(b: Board, s: State, ids: string)
    requires Agree(b, s)
    ensures var r := SyncIds(b, s, ids);
            && IdsAgree(b, r.s) && (!r.ok ==> Agree(b, r.s))
            && r.s.mtdparts == s.mtdparts && r.s.mtdids == s.mtdids
            && (r.ok ==> ids != "" && r.s.lastIds == ids && (!(s.lastIds == "" || s.lastIds != ids) ==> r.s == s))
  {
    hide ParseTable;
    assert !ParseIds(b.hw, [], "").ok;
  }

  /** The part of mtdparts_init behind the choice of the ids. */
  lemma InitPartsAgrees(b: Board, s: State, ids: string, wanted: string)
    requires Agree(b, s) && s.mtdids == EnvValue(Some(ids))
    ensures var r := InitParts(b, s, ids, wanted); Agree(b, r.s) && (r.ok && r.s.mtdparts.Some? ==> Fresh(b, r.s))
  {
    hide SyncIds, SyncParts, SyncCurrent, ParseTable, ParseIds;
    var takeDefault := s.mtdparts.None? && b.partsDefault.Some? && s.useDefaults;
    var parts := if takeDefault then b.partsDefault else s.mtdparts;
    var s1 := if takeDefault then s.(mtdparts := EnvValue(parts), useDefaults := false) else s;
    SyncIdsAgrees(b, s1, ids);
    var r2 := SyncIds(b, s1, ids);
    if parts.Some? && r2.ok {
      var changed := s.lastIds == "" || s.lastIds != ids;
      SyncPartsAgrees(b, r2.s, parts.value, changed);
      SyncCurrentFrame(SyncParts(b, r2.s, parts.value, changed).s, wanted);
    }
  }

  /** mtdparts_init keeps the agreement, and leaves a fresh table whenever it succeeds with `mtdparts` set. */
  lemma InitAgrees(b: Board, s: State)
    requires Agree(b, s)
    ensures var r := Init(b, s); Agree(b, r.s) && (r.ok && r.s.mtdparts.Some? ==> Fresh(b, r.s))
  {
    hide InitParts, ParseTable, ParseIds;
    var wanted := if s.partition.None? then "" else Clip(s.partition.value, PARTITION_MAXLEN);
    if s.mtdids.Some? || b.idsDefault.Some? {
      var ids := if s.mtdids.Some? then s.mtdids.value else b.idsDefault.value;
      InitPartsAgrees(b, s.(mtdids := EnvValue(Some(ids))), ids, wanted);
    }
  }

  /** Printing the table keeps the agreement exactly when the table is readable. */
  lemma GenerateAgrees(b: Board, s: State)
    requires Inv(b, s) && IdsAgree(b, s)
    ensures var r := GenerateSave(s);
            Agree(b, r.s) <==> (r.ok && s.devices != [] ==> TableReadable(s.ids, s.devices))
  {
    hide ParseTable, ParseIds, TableOk, TableReadable;
    if s.devices != [] {
      TableRoundTrips(b.hw, s.ids, s.devices);
      TextHead(s.devices);
    }
  }

  /** A command that prints the table. */
  ghost predicate Prints(b: Board, s: State, c: Command) {
    (c.Add? || c.Del?) && Exec(b, s, c).ok && Exec(b, s, c).s.devices != []
  }

  lemma AddAgrees(b: Board, s: State, c: Command)
    requires Inv(b, s) && Agree(b, s) && c.Add?
    ensures var r := AddPart(b, s, c);
            && IdsAgree(b, r.s)
            && (Agree(b, r.s) <==> (r.ok && r.s.devices != [] ==> TableReadable(r.s.ids, r.s.devices)))
  {
    hide ParseDevice, ParseTable, ParseIds, TableOk, TableReadable, PartAdd, DeviceOk;
    var d := MtdIdParse(c.dev);
    if d.DevId? {
      var id := IdFind(s.ids, d.devType, d.num);
      if id.Some? {
        var text := id.value.mtdId + ":" + c.def + "(" + c.name + ")" + c.flags;
        var r := ParseDevice(b.hw, s.ids, s.devices, text);
        if r.ParsedDevice? {
          ParseDeviceOk(b.hw, s.ids, s.devices, text);
          var k := DeviceFind(s.devices, r.dev.id.devType, r.dev.id.num);
          if k == |s.devices| {
            SnocOk(b.hw, s.devices, r.dev);
            if s.devices == [] { assert s.devices + [r.dev] == [r.dev]; }
            GenerateAgrees(b, DeviceAdd(s, r.dev));
          } else if r.dev.parts != [] {
            FirstNameOk(b.hw, r.dev);
            PartAddKeeps(b, s, k, r.dev.parts[0]);
            PartAddFrame(s, k, r.dev.parts[0], b.hw);
            GenerateAgrees(b, PartAdd(s, k, r.dev.parts[0], b.hw).s);
          }
        }
      }
    }
  }

  lemma PartAddFrame(s: State, k: nat, part: Part, hw: Hardware)
    requires k < |s.devices|
    ensures var r := PartAdd(s, k, part, hw);
            && r.s.ids == s.ids && r.s.lastIds == s.lastIds && r.s.lastParts == s.lastParts
            && r.s.mtdids == s.mtdids && r.s.mtdparts == s.mtdparts
            && (!r.ok ==> r.s == s)
  {
  }

  lemma PartDelFrame(s: State, k: nat, i: nat)
    requires k < |s.devices| && i < |s.devices[k].parts|
    ensures var t := PartDel(s, k, i);
            && t.ids == s.ids && t.lastIds == s.lastIds && t.lastParts == s.lastParts
            && t.mtdids == s.mtdids && t.mtdparts == s.mtdparts
  {
  }

  lemma DelAgrees(b: Board, s: State, id: string)
    requires Inv(b, s) && Agree(b, s)
    ensures var r := DelPart(s, id);
            && IdsAgree(b, r.s)
            && (Agree(b, r.s) <==> (r.ok && r.s.devices != [] ==> TableReadable(r.s.ids, r.s.devices)))
  {
    hide ParseTable, ParseIds, TableOk, TableReadable, PartDel, FindDevAndPart;
    var f := FindDevAndPart(s.devices, id);
    if f.Found? && f.dev < |s.devices| && f.part < |s.devices[f.dev].parts| {
      PartDelKeeps(b, s, f.dev, f.part);
      PartDelFrame(s, f.dev, f.part);
      GenerateAgrees(b, PartDel(s, f.dev, f.part));
    }
  }

  /** One command keeps the agreement exactly when it does not print an unreadable table. */
  lemma ExecAgrees(b: Board, s: State, c: Command)
    requires Inv(b, s) && Agree(b, s)
    ensures var r := Exec(b, s, c);
            && IdsAgree(b, r.s)
            && (Agree(b, r.s) <==> (Prints(b, s, c) ==> TableReadable(r.s.ids, r.s.devices)))
  {
    hide Init, AddPart, DelPart, ParseTable, ParseIds, TableOk, TableReadable, FindDevAndPart;
    InitAgrees(b, s);
    InitKeeps(b, s);
    InitAgrees(b, s.(mtdids := None, mtdparts := None, partition := None, useDefaults := true));
    var r := Init(b, s);
    if r.ok && c.Add? { AddAgrees(b, r.s, c); }
    if r.ok && c.Del? { DelAgrees(b, r.s, c.id); }
  }

  /** A run in which every printed table is readable. */
  ghost predicate Careful(b: Board, cs: seq<Command>) {
    forall k | 0 < k <= |cs| ::
      Prints(b, Run(b, cs[..k - 1]), cs[k - 1]) ==> TableReadable(Run(b, cs[..k]).ids, Run(b, cs[..k]).devices)
  }

  lemma CarefulFront(b: Board, cs: seq<Command>, n: nat)
    requires Careful(b, cs) && n <= |cs|
    ensures Careful(b, cs[..n])
  {
    hide Prints, TableReadable, Run;
    var ds := cs[..n];
    forall k | 0 < k <= n
      ensures Prints(b, Run(b, ds[..k - 1]), ds[k - 1]) ==> TableReadable(Run(b, ds[..k]).ids, Run(b, ds[..k]).devices)
    {
      assert ds[..k - 1] == cs[..k - 1] && ds[..k] == cs[..k] && ds[k - 1] == cs[k - 1];
    }
  }

  lemma {:induction false} RunAgrees(b: Board, cs: seq<Command>)
    requires Careful(b, cs)
    ensures Agree(b, Run(b, cs))
  {
    hide Prints, TableReadable, Exec, Agree, Inv;
    if cs == [] {
      assert Agree(b, BOOT) by { BootAgrees(b); }
    } else {
      var n := |cs| - 1;
      CarefulFront(b, cs, n);
      RunAgrees(b, cs[..n]);
      RunKeeps(b, cs[..n]);
      assert cs[..n + 1] == cs;
      ExecAgrees(b, Run(b, cs[..n]), cs[n]);
    }
  }

  lemma BootAgrees(b: Board)
    ensures Agree(b, BOOT)
  {
  }

  /**
    Over every run from power-on in which each printed table is readable, mtdparts_init leaves a
    device list that is a fresh parse of the environment, whether or not it parsed anything.
   */
  lemma CacheAgrees(b: Board, cs: seq<Command>)
    requires Careful(b, cs)
    ensures var r := Init(b, Run(b, cs)); r.ok && r.s.mtdparts.Some? ==> Fresh(b, r.s)
  {
    RunAgrees(b, cs);
    InitAgrees(b, Run(b, cs));
  }

  /**
    The condition is exact: right after a command that printed the table, mtdparts_init succeeds
    without touching the list, and the list is a fresh parse exactly when the table is readable.
   */
  lemma CacheAgreesOnlyThen(b: Board, s: State, c: Command)
    requires Inv(b, s) && Agree(b, s) && Prints(b, s, c)
    ensures var t := Exec(b, s, c).s;
            var r := Init(b, t);
            && r.ok && r.s.devices == t.devices && r.s.mtdparts.Some?
            && (Fresh(b, r.s) <==> TableReadable(t.ids, t.devices))
  {
    hide ParseTable, ParseIds, TableOk, TableReadable, AddPart, DelPart, Init;
    ExecAgrees(b, s, c);
    PrintedInSync(b, s, c);
    var t := Exec(b, s, c).s;
    InitSkips(b, t);
    SyncCurrentFrame(t, if t.partition.None? then "" else Clip(t.partition.value, PARTITION_MAXLEN));
  }

  /** A well-formed table that does not survive printing and parsing: two partitions at one offset. */
  lemma EqualOffsetsComeBackSwapped(hw: Hardware, id: MtdId, a: Part, b: Part)
    requires PartOk(hw, id, a) && PartOk(hw, id, b) && ':' !in id.mtdId
    requires a.offset == b.offset != 0 && Plain(a) != Plain(b)
    ensures var devs := [Device(id, 2, [a, b])];
            TableOk(hw, devs) && !Reads(ParseTable(hw, [id], PrintTable(devs)), devs)
  {
    hide PartOk, ParseTable, PrintTable, Plain, SizesReadable;
    var ps := [a, b];
    var devs := [Device(id, 2, ps)];
    assert DeviceOk(hw, devs[0]);
    assert InsertPos(ps, a.offset) == 0;
    assert ps[1..] == [b] && InsertPos([b], a.offset + 1) == 1 && InsertPos(ps, a.offset + 1) == 2;
    assert Mirror(ps, 0) == 1;
    TableRoundTrips(hw, [id], devs);
    assert !Symmetric(ps);
    assert !Readable([id], devs[0]);
  }

  /** A fill-up partition smaller than the parser's minimum is printed but not read back. */
  lemma SmallFillUpIsNotReadBack(hw: Hardware, id: MtdId, p: Part)
    requires PartOk(hw, id, p) && ':' !in id.mtdId && p.size < MIN_PART_SIZE
    ensures var devs := [Device(id, 1, [p])];
            TableOk(hw, devs) && !Reads(ParseTable(hw, [id], PrintTable(devs)), devs)
  {
    hide PartOk, ParseTable, PrintTable;
    var devs := [Device(id, 1, [p])];
    assert DeviceOk(hw, devs[0]);
    TableRoundTrips(hw, [id], devs);
    assert [p][0].size < MIN_PART_SIZE;
    assert !Readable([id], devs[0]);
  }

  /** The remembered texts are the environment's own. */
  ghost predicate InSync(s: State) {
    && s.lastIds != "" && s.mtdids == Some(s.lastIds) && |s.lastIds| < MTDIDS_MAXLEN
    && s.lastParts != "" && s.mtdparts == Some(s.lastParts) && |s.lastParts| < MTDPARTS_MAXLEN
  }

  lemma InitSkips(b: Board, s: State)
    requires InSync(s)
    ensures Init(b, s)
         == Outcome(SyncCurrent(s, if s.partition.None? then "" else Clip(s.partition.value, PARTITION_MAXLEN)), true)
  {
    hide SyncCurrent;
  }

  lemma InitIdsInSync(b: Board, s: State)
    requires Agree(b, s) && Init(b, s).ok
    ensures var t := Init(b, s).s; t.lastIds != "" && t.mtdids == Some(t.lastIds) && |t.lastIds| < MTDIDS_MAXLEN
  {
    hide SyncIds, SyncParts, SyncCurrent, ParseTable, ParseIds;
    var ids := if s.mtdids.Some? then s.mtdids.value else b.idsDefault.value;
    var s1 := s.(mtdids := EnvValue(Some(ids)));
    var takeDefault := s1.mtdparts.None? && b.partsDefault.Some? && s1.useDefaults;
    var parts := if takeDefault then b.partsDefault else s1.mtdparts;
    var s2 := if takeDefault then s1.(mtdparts := EnvValue(parts), useDefaults := false) else s1;
    SyncIdsAgrees(b, s2, ids);
    var r3 := SyncIds(b, s2, ids);
    if parts.Some? {
      var changed := s.lastIds == "" || s.lastIds != ids;
      SyncPartsAgrees(b, r3.s, parts.value, changed);
      var wanted := if s.partition.None? then "" else Clip(s.partition.value, PARTITION_MAXLEN);
      SyncCurrentFrame(SyncParts(b, r3.s, parts.value, changed).s, wanted);
    }
  }

  lemma PrintedInSync(b: Board, s: State, c: Command)
    requires Inv(b, s) && Agree(b, s) && Prints(b, s, c)
    ensures InSync(Exec(b, s, c).s)
  {
    hide ParseDevice, ParseTable, ParseIds, TableOk, PartAdd, PartDel, Init, FindDevAndPart, PrintTable, DeviceOk;
    hide MtdIdParse, IdFind;
    InitIdsInSync(b, s);
    var r := Init(b, s);
    TextHead(Exec(b, s, c).s.devices);
    if c.Add? {
      var d := MtdIdParse(c.dev);
      var id := IdFind(r.s.ids, d.devType, d.num);
      var text := id.value.mtdId + ":" + c.def + "(" + c.name + ")" + c.flags;
      var dev := ParseDevice(b.hw, r.s.ids, r.s.devices, text).dev;
      var k := DeviceFind(r.s.devices, dev.id.devType, dev.id.num);
      if k < |r.s.devices| { PartAddFrame(r.s, k, dev.parts[0], b.hw); }
    } else {
      var f := FindDevAndPart(r.s.devices, c.id);
      PartDelFrame(r.s, f.dev, f.part);
    }
  }
}
