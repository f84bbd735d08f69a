/** A run of commands after which the partition table in memory is not what its own text says. */
module MtdWitness {
  import opened Base
  import opened NumText
  import opened PartText
  import opened PartList
  import opened DeviceText
  import opened TableRoundTrip
  import opened MtdState
  import opened MtdProofs

  /** One NAND device of 64 KiB in blocks of 4 KiB. */
  const HW: Hardware := map[(NAND, 0) := Flash(0x1_0000, 0x1000, [])]
  const BOARD: Board := Board(HW, None, None)
  const ID: MtdId := MtdId(NAND, 0, 0x1_0000, "n")

  const PART_A: Part := Part("a", false, 0x1000, 0x1000, false)
  const PART_B: Part := Part("b", false, 0x2000, 0x1000, false)

  const SET_IDS: Command := SetIds(Some("nand0=n"))
  const ADD_A: Command := Add("nand0", "4k@4k", "a", "")
  const ADD_B: Command := Add("nand0", "8k@4k", "b", "")

  // ---- the texts

  lemma NumberZero(rest: string)
    requires rest == "" || DigitValue(rest[0]) == 16
    requires Head(rest) != 'x' && Head(rest) != 'X'
    ensures MtdIdParse("nand0" + rest) == DevId(NAND, 0, rest)
  {
    var s := "nand0" + rest;
    var t := "0" + rest;
    assert s[4..] == t;
    assert SkipRadix(t) == t && Radix(t) == 8;
    assert t[1..] == rest;
    assert "nand" <= s && s[..4] == "nand";
    assert ScanDigits(rest, 8, 0) == Num(0, rest);
    assert Strtoull(t) == Num(0, rest);
  }

  lemma IdsParsed()
    ensures ParseIds(HW, [], "nand0=n") == Ids(true, [ID])
  {
    hide MtdIdParse;
    NumberZero("=n");
    assert "nand0" + "=n" == "nand0=n";
    assert "=n"[1..] == "n";
    assert Find("n", ',') == 1 by { assert "n"[1..] == ""; }
    assert "n"[..1] == "n";
  }

  lemma PartsAreOk()
    ensures PartOk(HW, ID, PART_A) && PartOk(HW, ID, PART_B)
  {
  }

  lemma Printed(p: Part)
    requires p == PART_A || p == PART_B
    ensures "n" + ":" + (if p == PART_A then "4k@4k" else "8k@4k") + "(" + p.name + ")" + ""
         == "n" + ":" + PrintPart(p, true)
  {
    assert Decimal(4) == "4" && Decimal(8) == "8";
    assert MemsizeFormat(0x1000) == "4k" && MemsizeFormat(0x2000) == "8k";
  }

  /** A definition with an offset of its own, for the only device. */
  lemma Defined(devs: seq<Device>, p: Part)
    requires p == PART_A || p == PART_B
    requires StartOffset(devs, ID) != p.offset
    ensures ParseDevice(HW, [ID], devs, "n" + ":" + PrintPart(p, true)) == ParsedDevice(Device(ID, 1, [p]), "")
  {
    hide ParseDefs, PrintPart, PartOk;
    var s, start := "n" + ":" + PrintPart(p, true), StartOffset(devs, ID);
    PartsAreOk();
    assert PrintDefs([p], 1, start) == PrintPart(p, true) by { assert [p][1..] == []; }
    assert PrintPart(p, true) + "" == PrintPart(p, true);
    DefsReadBack(HW, ID, [p], start, "");
    var r := ParseDefs(HW, ID, PrintPart(p, true), start);
    assert PlainParts(r.parts)[0] == PlainParts([p])[0];
    assert r.parts == [p];
    FindAppend("n", ':', PrintPart(p, true));
    assert s[..1] == "n" && s[2..] == PrintPart(p, true);
    OneLinked(p);
  }

  lemma OneLinked(p: Part)
    ensures InsertAll([p]) == Some([p])
  {
    assert [p][..0] == [] && InsertAll([]) == Some([]);
    assert InsertPos([], p.offset) == 0;
    assert [] + [p] + [] == [p];
    assert SortInsert([], p) == Some([p]);
    assert [p][|[p]| - 1] == p;
  }

  // ---- the run

  const TEXT_A: string := PrintTable([Device(ID, 1, [PART_A])])

  /** What the first two commands leave. */
  ghost predicate HasA(s: State) {
    && s.ids == [ID] && s.lastIds == "nand0=n" && s.mtdids == Some("nand0=n")
    && s.devices == [Device(ID, 1, [PART_A])] && s.lastParts == TEXT_A && s.mtdparts == Some(TEXT_A)
  }

  const NAMED: State := BOOT.(mtdids := Some("nand0=n"))

  lemma FirstInit()
    ensures Init(BOARD, NAMED) == Outcome(NAMED.(ids := [ID], lastIds := "nand0=n"), true)
  {
    hide ParseIds;
    IdsParsed();
  }

  lemma TextFits(devs: seq<Device>)
    requires devs == [Device(ID, 1, [PART_A])] || devs == [Device(ID, 2, [PART_B, PART_A])]
    ensures 0 < |PrintTable(devs)| <= 100
  {
    var dev := devs[0];
    assert devs[1..] == [] && PrintTable([]) == "";
    assert PrintTable(devs) == PrintDevice(dev) + "" + "";
    DefsFit(dev.parts, dev.numParts, 0);
  }

  lemma DefsFit(ps: seq<Part>, left: int, end: u64)
    requires forall i | 0 <= i < |ps| :: ps[i] == PART_A || ps[i] == PART_B
    ensures |PrintDefs(ps, left, end)| <= 10 * |ps|
  {
    hide PrintPart;
    if ps != [] {
      PartFits(ps[0], ps[0].offset != end);
      DefsFit(ps[1..], left - 1, End(ps[0]));
    }
  }

  lemma PartFits(p: Part, gap: bool)
    requires p == PART_A || p == PART_B
    ensures |PrintPart(p, gap)| <= 8
  {
    assert Decimal(4) == "4" && Decimal(8) == "8";
    assert MemsizeFormat(0x1000) == "4k" && MemsizeFormat(0x2000) == "8k";
  }

  lemma FirstAdd()
    ensures Exec(BOARD, NAMED, ADD_A).ok && HasA(Exec(BOARD, NAMED, ADD_A).s)
  {
    hide Init, MtdIdParse, ParseDevice, PrintTable, PrintPart;
    FirstInit();
    NumberZero("");
    assert "nand0" + "" == "nand0";
    Printed(PART_A);
    Defined([], PART_A);
    TextFits([Device(ID, 1, [PART_A])]);
  }

  /** The list that linking the second partition at the same offset gives. */
  const SWAPPED: seq<Device> := [Device(ID, 2, [PART_B, PART_A])]

  lemma InitWithA(s: State)
    requires HasA(s)
    ensures Init(BOARD, s).ok && HasA(Init(BOARD, s).s)
  {
    hide Init, PrintTable, SyncCurrent;
    TextFits([Device(ID, 1, [PART_A])]);
    InitSkips(BOARD, s);
    SyncCurrentFrame(s, if s.partition.None? then "" else Clip(s.partition.value, PARTITION_MAXLEN));
  }

  lemma LinkedBefore(s: State)
    requires HasA(s)
    ensures var r := PartAdd(s, 0, PART_B, HW);
            r.ok && r.s.devices == SWAPPED && r.s.ids == s.ids && r.s.lastIds == s.lastIds && r.s.mtdids == s.mtdids
  {
    hide PrintTable, PartitionText;
    PartsAreOk();
    PartAddFrame(s, 0, PART_B, HW);
    assert InsertPos([PART_A], PART_B.offset) == 0;
    assert [PART_A][..0] + [PART_B] + [PART_A][0..] == [PART_B, PART_A];
  }

  lemma SecondAdd(s: State)
    requires HasA(s)
    ensures var r := Exec(BOARD, s, ADD_B);
            r.ok && r.s.devices == SWAPPED && r.s.ids == [ID] && Prints(BOARD, s, ADD_B)
  {
    hide Init, MtdIdParse, ParseDevice, PrintTable, PrintPart, PartAdd;
    InitWithA(s);
    NumberZero("");
    assert "nand0" + "" == "nand0";
    Printed(PART_B);
    var t := Init(BOARD, s).s;
    assert StartOffset(t.devices, ID) == 0x2000;
    Defined(t.devices, PART_B);
    LinkedBefore(t);
    TextFits(SWAPPED);
  }

  lemma AIsReadable()
    ensures TableReadable([ID], [Device(ID, 1, [PART_A])])
  {
    StrictIsSymmetric([PART_A]);
  }

  lemma SwappedIsNot()
    ensures !TableReadable([ID], SWAPPED)
  {
    hide SizesReadable;
    var ps := [PART_B, PART_A];
    assert InsertPos(ps, 0x1000) == 0;
    assert ps[1..] == [PART_A] && InsertPos([PART_A], 0x1001) == 1 && InsertPos(ps, 0x1001) == 2;
    assert Mirror(ps, 0) == 1;
    assert !Symmetric(ps);
    assert !Readable([ID], SWAPPED[0]);
  }

  const RUN: seq<Command> := [SET_IDS, ADD_A, ADD_B]

  /**
    Naming the device and adding two partitions at one offset: the second command prints a table that is
    not readable, and mtdparts_init succeeds with a list that is not a fresh parse of the environment.
   */
  lemma CacheDisagrees()
    ensures var before, after := Run(BOARD, RUN[..2]), Run(BOARD, RUN);
            var r := Init(BOARD, after);
            && Prints(BOARD, before, ADD_B) && !TableReadable(after.ids, after.devices)
            && r.ok && r.s.mtdparts.Some? && r.s.devices == SWAPPED && !Fresh(BOARD, r.s)
  {
    hide Init, Exec, TableReadable, Fresh, Agree, Inv, Prints;
    StatesOfRun();
    var before := Run(BOARD, RUN[..2]);
    FirstAdd();
    RunKeeps(BOARD, RUN[..2]);
    FirstAgrees();
    SecondAdd(before);
    SwappedIsNot();
    CacheAgreesOnlyThen(BOARD, before, ADD_B);
  }

  lemma StatesOfRun()
    ensures Run(BOARD, RUN[..2]) == Exec(BOARD, NAMED, ADD_A).s
    ensures Run(BOARD, RUN) == Exec(BOARD, Run(BOARD, RUN[..2]), ADD_B).s
  {
    hide AddPart, Init;
    var one, two := [SET_IDS], [SET_IDS, ADD_A];
    assert one[..0] == [] && two[..1] == one && RUN[..2] == two;
    assert Run(BOARD, []) == BOOT;
    assert Run(BOARD, one) == NAMED;
  }

  /** The first partition alone is printed and read back, so the remembered text still agrees. */
  lemma FirstAgrees()
    ensures Agree(BOARD, Exec(BOARD, NAMED, ADD_A).s)
  {
    hide Init, Exec, Inv, Agree, TableReadable;
    FirstAdd();
    AIsReadable();
    NamedIsFine();
    ExecAgrees(BOARD, NAMED, ADD_A);
  }

  lemma NamedIsFine()
    ensures Inv(BOARD, NAMED) && Agree(BOARD, NAMED)
  {
    EmptyOk(HW);
  }
}
