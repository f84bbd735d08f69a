/** Printing a partition table and parsing the text back: exactly when it gives the same table. */
module TableRoundTrip {
  import opened Base
  import opened PartText
  import opened PartList
  import opened DeviceText

  /** What every device on the list satisfies, however it got there. */
  ghost predicate DeviceOk(hw: Hardware, dev: Device) {
    && dev.numParts == |dev.parts| > 0
    && PartsOk(hw, dev.id, dev.parts)
    && Sorted(dev.parts) && OneAtZero(dev.parts)
    && ':' !in dev.id.mtdId
  }

  predicate SameSlot(a: Device, b: Device) {
    a.id.devType == b.id.devType && a.id.num == b.id.num
  }

  ghost predicate Distinct(devs: seq<Device>) {
    forall i, j | 0 <= i < j < |devs| :: !SameSlot(devs[i], devs[j])
  }

  ghost predicate TableOk(hw: Hardware, devs: seq<Device>) {
    Distinct(devs) && forall i | 0 <= i < |devs| :: DeviceOk(hw, devs[i])
  }

  function PlainDevice(dev: Device): Device {
    dev.(parts := PlainParts(dev.parts))
  }

  function PlainDevices(devs: seq<Device>): (r: seq<Device>)
    ensures |r| == |devs| && forall i | 0 <= i < |devs| :: r[i] == PlainDevice(devs[i])
  {
    seq(|devs|, i requires 0 <= i < |devs| => PlainDevice(devs[i]))
  }

  /** `r` is the table `devs`, generated names apart. */
  ghost predicate Reads(r: Option<seq<Device>>, devs: seq<Device>) {
    r.Some? && PlainDevices(r.value) == PlainDevices(devs)
  }

  /** Partitions at one offset look the same in reverse order. */
  ghost predicate Symmetric(ps: seq<Part>) {
    forall i | 0 <= i < |ps| :: 0 <= Mirror(ps, i) < |ps| && Plain(ps[Mirror(ps, i)]) == Plain(ps[i])
  }

  ghost predicate Readable(ids: seq<MtdId>, dev: Device) {
    IdByName(ids, dev.id.mtdId) == Some(dev.id) && SizesReadable(dev.parts) && Symmetric(dev.parts)
  }

  ghost predicate TableReadable(ids: seq<MtdId>, devs: seq<Device>) {
    && (devs != [] ==> !(PREFIX <= devs[0].id.mtdId))
    && forall i | 0 <= i < |devs| :: Readable(ids, devs[i])
  }

  // ---- one device

  lemma {:induction false} InsertAllPlain(ps: seq<Part>, qs: seq<Part>)
    requires PlainParts(ps) == PlainParts(qs)
    ensures InsertAll(ps).Some? <==> InsertAll(qs).Some?
    ensures InsertAll(ps).Some? ==> PlainParts(InsertAll(ps).value) == PlainParts(InsertAll(qs).value)
  {
    if ps != [] {
      var n := |ps| - 1;
      assert |qs| == n + 1;
      assert PlainParts(ps)[n] == PlainParts(qs)[n];
      assert PlainParts(ps[..n]) == PlainParts(ps)[..n] == PlainParts(qs)[..n] == PlainParts(qs[..n]);
      InsertAllPlain(ps[..n], qs[..n]);
      if InsertAll(ps[..n]).Some? {
        SortInsertPlain(InsertAll(ps[..n]).value, InsertAll(qs[..n]).value, ps[n], qs[n]);
      }
    }
  }

  lemma SortInsertPlain(ps: seq<Part>, qs: seq<Part>, p: Part, q: Part)
    requires PlainParts(ps) == PlainParts(qs) && Plain(p) == Plain(q)
    ensures SortInsert(ps, p).Some? <==> SortInsert(qs, q).Some?
    ensures SortInsert(ps, p).Some? ==> PlainParts(SortInsert(ps, p).value) == PlainParts(SortInsert(qs, q).value)
  {
    hide Plain, InsertPos;
    SamePlaceSameEnd(p, q);
    assert |ps| == |qs|;
    forall i | 0 <= i < |ps| ensures Plain(ps[i]) == Plain(qs[i]) && ps[i].offset == qs[i].offset {
      assert PlainParts(ps)[i] == PlainParts(qs)[i];
      SamePlaceSameEnd(ps[i], qs[i]);
    }
    InsertPosSame(ps, qs, p.offset);
  }

  lemma MirroredPlain(ps: seq<Part>, qs: seq<Part>)
    requires Mirrored(ps, qs)
    ensures PlainParts(qs) == PlainParts(ps) <==> Symmetric(ps)
  {
    hide Mirror, Plain;
    if PlainParts(qs) == PlainParts(ps) {
      forall i | 0 <= i < |ps| ensures Plain(ps[Mirror(ps, i)]) == Plain(ps[i]) {
        assert PlainParts(qs)[i] == PlainParts(ps)[i];
      }
    }
  }

  /** The device text, read back: the same device exactly when it is readable. */
  lemma DeviceReadsBack(hw: Hardware, ids: seq<MtdId>, devs: seq<Device>, dev: Device, rest: string)
    requires DeviceOk(hw, dev) && EndsDefs(rest)
    requires forall i | 0 <= i < |devs| :: !SameSlot(devs[i], dev)
    ensures var r := ParseDevice(hw, ids, devs, PrintDevice(dev) + rest);
            && (r.ParsedDevice? && PlainDevice(r.dev) == PlainDevice(dev) <==> Readable(ids, dev))
            && (Readable(ids, dev) ==> r.rest == if rest == "" then "" else rest[1..])
  {
    hide Plain, Mirror, InsertAll, ParseDefs, PrintDefs, DeviceFind, SizesReadable, PartsOk;
    var s, k := PrintDevice(dev) + rest, |dev.id.mtdId|;
    var defs := PrintDefs(dev.parts, |dev.parts|, 0);
    assert s == dev.id.mtdId + ":" + (defs + rest);
    FindAppend(dev.id.mtdId, ':', defs + rest);
    assert s[..k] == dev.id.mtdId && s[k + 1..] == defs + rest;
    if IdByName(ids, dev.id.mtdId) == Some(dev.id) {
      assert DeviceFind(devs, dev.id.devType, dev.id.num) == |devs|;
      DefsReadBack(hw, dev.id, dev.parts, 0, rest);
      var d := ParseDefs(hw, dev.id, defs + rest, 0);
      if d.Defs? {
        InsertAllMirrors(dev.parts);
        InsertAllPlain(d.parts, dev.parts);
        MirroredPlain(dev.parts, InsertAll(dev.parts).value);
        assert |d.parts| == |dev.parts|;
      }
    }
  }

  // ---- the table

  lemma {:induction false} ParseDevicesExtends(hw: Hardware, ids: seq<MtdId>, devs: seq<Device>, s: string)
    ensures var r := ParseDevices(hw, ids, devs, s); r.Some? ==> devs <= r.value
    decreases |s|
  {
    if s != "" {
      ParseDeviceShrinks(hw, ids, devs, s);
      var r := ParseDevice(hw, ids, devs, s);
      if r.ParsedDevice? && DeviceFind(devs, r.dev.id.devType, r.dev.id.num) == |devs| {
        ParseDevicesExtends(hw, ids, devs + [r.dev], r.rest);
      }
    }
  }

  /** Whatever follows, the first device parsed stays where it was put. */
  lemma FirstDeviceStays(hw: Hardware, ids: seq<MtdId>, devs: seq<Device>, s: string)
    requires s != ""
    ensures var r, d := ParseDevices(hw, ids, devs, s), ParseDevice(hw, ids, devs, s);
            r.Some? ==> d.ParsedDevice? && |devs| < |r.value| && r.value[|devs|] == d.dev
  {
    ParseDeviceShrinks(hw, ids, devs, s);
    var r := ParseDevice(hw, ids, devs, s);
    if r.ParsedDevice? && DeviceFind(devs, r.dev.id.devType, r.dev.id.num) == |devs| {
      ParseDevicesExtends(hw, ids, devs + [r.dev], r.rest);
      assert (devs + [r.dev])[|devs|] == r.dev;
    }
  }

  lemma ReadsOne(r: Option<seq<Device>>, devs: seq<Device>, i: nat)
    requires Reads(r, devs) && i < |devs|
    ensures |r.value| == |devs| && PlainDevice(r.value[i]) == PlainDevice(devs[i])
  {
    assert PlainDevices(r.value)[i] == PlainDevices(devs)[i];
  }

  lemma {:induction false} DevicesReadBack(hw: Hardware, ids: seq<MtdId>, acc: seq<Device>, all: seq<Device>, k: nat)
    requires TableOk(hw, all) && k <= |all| && |acc| == k
    requires PlainDevices(acc) == PlainDevices(all[..k])
    ensures Reads(ParseDevices(hw, ids, acc, PrintTable(all[k..])), all)
       <==> forall i | k <= i < |all| :: Readable(ids, all[i])
    decreases |all| - k
  {
    hide Readable, DeviceOk, ParseDevice, PrintDevice;
    if k == |all| {
      assert all[..k] == all;
    } else {
      var dev, rest := all[k], if k + 1 < |all| then ";" + PrintTable(all[k + 1..]) else "";
      var s := PrintTable(all[k..]);
      assert all[k..][1..] == all[k + 1..] && all[k..][0] == dev;
      assert k + 1 == |all| ==> PrintTable(all[k + 1..]) == "";
      assert s == PrintDevice(dev) + rest;
      TextHead(all[k..]);
      forall i | 0 <= i < k ensures !SameSlot(acc[i], dev) {
        assert PlainDevices(acc)[i] == PlainDevices(all[..k])[i];
      }
      DeviceReadsBack(hw, ids, acc, dev, rest);
      var r := ParseDevice(hw, ids, acc, s);
      if Readable(ids, dev) {
        assert r.rest == PrintTable(all[k + 1..]);
        PlainSnoc(acc, r.dev, all, k);
        DevicesReadBack(hw, ids, acc + [r.dev], all, k + 1);
        ParseDeviceShrinks(hw, ids, acc, s);
      } else if Reads(ParseDevices(hw, ids, acc, s), all) {
        FirstDeviceStays(hw, ids, acc, s);
        ReadsOne(ParseDevices(hw, ids, acc, s), all, k);
      }
    }
  }

  lemma PlainSnoc(acc: seq<Device>, dev: Device, all: seq<Device>, k: nat)
    requires k < |all| && |acc| == k && PlainDevices(acc) == PlainDevices(all[..k])
    requires PlainDevice(dev) == PlainDevice(all[k])
    ensures PlainDevices(acc + [dev]) == PlainDevices(all[..k + 1])
  {
    hide PlainDevice;
    forall i | 0 <= i <= k ensures PlainDevice((acc + [dev])[i]) == PlainDevice(all[..k + 1][i]) {
      if i < k { assert PlainDevices(acc)[i] == PlainDevices(all[..k])[i]; }
    }
  }

  /**
    The printed table parses back to the same table exactly when every size is readable, every name
    still stands for its device, partitions that share an offset look the same in reverse order, and
    the first name does not start with the prefix the parser strips.
   */
  lemma TableRoundTrips(hw: Hardware, ids: seq<MtdId>, devs: seq<Device>)
    requires TableOk(hw, devs) && devs != []
    ensures Reads(ParseTable(hw, ids, PrintTable(devs)), devs) <==> TableReadable(ids, devs)
  {
    hide Readable, DeviceOk, ParseDevices;
    var s, name := PrintTable(devs), devs[0].id.mtdId;
    TextHead(devs);
    assert DeviceOk(hw, devs[0]);
    PrefixOfText(name, s);
    if PREFIX <= name {
      if Reads(ParseTable(hw, ids, s), devs) { PrefixLost(hw, ids, devs); }
    } else {
      assert devs[0..] == devs;
      DevicesReadBack(hw, ids, [], devs, 0);
    }
  }

  lemma TextHead(devs: seq<Device>)
    requires devs != []
    ensures devs[0].id.mtdId + ":" <= PrintTable(devs)
  {
  }

  lemma PrefixOfText(name: string, s: string)
    requires name + ":" <= s
    ensures PREFIX <= s <==> PREFIX <= name
  {
    assert ':' !in PREFIX;
    assert s[|name|] == ':';
    assert forall i | 0 <= i < |name| :: s[i] == name[i];
    assert PREFIX <= s ==> forall i | 0 <= i < |PREFIX| :: PREFIX[i] == s[i];
  }

  lemma {:induction false} IdByNameNamed(ids: seq<MtdId>, name: string)
    ensures var r := IdByName(ids, name); r.Some? ==> r.value.mtdId == name && r.value in ids
  {
    if ids != [] { IdByNameNamed(ids[1..], name); }
  }

  lemma ParseDeviceNamed(hw: Hardware, ids: seq<MtdId>, devs: seq<Device>, s: string)
    ensures var r := ParseDevice(hw, ids, devs, s);
            r.ParsedDevice? ==> r.dev.id.mtdId == s[..Find(s, ':')] && IdByName(ids, r.dev.id.mtdId) == Some(r.dev.id)
  {
    IdByNameNamed(ids, s[..Find(s, ':')]);
  }

  /** A stripped prefix takes the first device's name with it. */
  lemma PrefixLost(hw: Hardware, ids: seq<MtdId>, devs: seq<Device>)
    requires TableOk(hw, devs) && devs != [] && PREFIX <= devs[0].id.mtdId
    ensures !Reads(ParseTable(hw, ids, PrintTable(devs)), devs)
  {
    hide DeviceOk, ParseDevices, ParseDevice;
    var s, name := PrintTable(devs), devs[0].id.mtdId;
    TextHead(devs);
    PrefixOfText(name, s);
    var t := s[9..];
    assert t[|name| - 9] == s[|name|] == ':';
    assert forall i | 0 <= i < Find(t, ':') :: t[i] == t[..Find(t, ':')][i];
    assert |t[..Find(t, ':')]| < |name|;
    var r := ParseTable(hw, ids, s);
    if Reads(r, devs) {
      FirstDeviceStays(hw, ids, [], t);
      ReadsOne(r, devs, 0);
      ParseDeviceNamed(hw, ids, [], t);
    }
  }

  /** Distinct offsets are enough for symmetry. */
  lemma StrictIsSymmetric(ps: seq<Part>)
    requires forall i, j | 0 <= i < j < |ps| :: ps[i].offset < ps[j].offset
    ensures Symmetric(ps)
  {
    forall i | 0 <= i < |ps| ensures Mirror(ps, i) == i {
      var lo, hi := InsertPos(ps, ps[i].offset), InsertPos(ps, ps[i].offset + 1);
      assert lo <= i < hi;
      assert ps[lo].offset <= ps[i].offset;
      assert i + 1 < |ps| ==> ps[i].offset < ps[i + 1].offset;
    }
  }
}
