/** Sector selection of cmd/flash.c: which sectors an address range stands for. */
module FlashSectors {
  import opened Base

  /** One past the largest address. */
  const WORD: nat := TWO64

  /** A flash bank: first addresses of its sectors in order, and its size in bytes. */
  datatype Bank = Bank(known: bool, start: seq<nat>, size: nat)

  /** A bank that was found has a sector at least, ascending ones inside the bank, and lies inside the address space. */
  ghost predicate ValidBank(b: Bank) {
    && |b.start| > 0
    && (forall i, j | 0 <= i < j < |b.start| :: b.start[i] < b.start[j])
    && b.start[|b.start| - 1] < b.start[0] + b.size <= WORD
  }

  ghost predicate ValidBanks(banks: seq<Bank>) {
    forall k | 0 <= k < |banks| && banks[k].known :: ValidBank(banks[k])
  }

  function BankEnd(b: Bank): int
    requires |b.start| > 0
  {
    b.start[0] + b.size - 1
  }

  /** The last address of a sector. */
  function SectorEnd(b: Bank, s: nat): int
    requires s < |b.start|
  {
    if s == |b.start| - 1 then BankEnd(b) else b.start[s + 1] as int - 1
  }

  lemma SectorOrder(b: Bank, s: nat)
    requires ValidBank(b) && s < |b.start|
    ensures b.start[0] <= b.start[s] <= SectorEnd(b, s) <= BankEnd(b) < WORD
    ensures forall t | s < t < |b.start| :: SectorEnd(b, s) < b.start[t]
  {
    assert s > 0 ==> b.start[0] < b.start[s];
    assert forall t | s < t < |b.start| :: b.start[s + 1] <= b.start[t];
  }

  // ---- one bank

  /** The sector that starts, or ends, at an address. */
  ghost predicate StartsAt(b: Bank, s: nat, x: int) {
    s < |b.start| && b.start[s] == x
  }

  ghost predicate EndsAt(b: Bank, s: nat, x: int) {
    s < |b.start| && SectorEnd(b, s) == x
  }

  lemma OnlyOne(b: Bank, s: nat, t: nat, x: int)
    requires ValidBank(b)
    ensures StartsAt(b, s, x) && StartsAt(b, t, x) ==> s == t
    ensures EndsAt(b, s, x) && EndsAt(b, t, x) ==> s == t
  {
    if s < |b.start| && t < |b.start| {
      SectorOrder(b, s);
      SectorOrder(b, t);
    }
  }

  /** What the code notes for a bank: -1, or the sector. */
  ghost predicate Notes(b: Bank, sFirst: int, sLast: int, first: nat, last: nat) {
    && -1 <= sFirst < |b.start| && -1 <= sLast < |b.start|
    && (if sFirst >= 0 then StartsAt(b, sFirst, first) else forall s: nat :: !StartsAt(b, s, first))
    && (if sLast >= 0 then EndsAt(b, sLast, last) else forall s: nat :: !EndsAt(b, s, last))
  }

  /** The sector loop. */
  method ScanBank(b: Bank, first: nat, last: nat) returns (sFirst: int, sLast: int)
    requires ValidBank(b) && first <= last
    ensures Notes(b, sFirst, sLast, first, last)
  {
    sFirst, sLast := -1, -1;
    for s := 0 to |b.start|
      invariant -1 <= sFirst < |b.start| && -1 <= sLast < |b.start|
      invariant if sFirst >= 0 then StartsAt(b, sFirst, first) else forall t: nat | t < s :: !StartsAt(b, t, first)
      invariant if sLast >= 0 then EndsAt(b, sLast, last) else forall t: nat | t < s :: !EndsAt(b, t, last)
    {
      SectorOrder(b, s);
      var end := SectorEnd(b, s);
      if first <= end && b.start[s] <= last {
        if first == b.start[s] { sFirst := s; }
        if last == end { sLast := s; }
      }
    }
  }

  /** A run of sectors of one bank. */
  datatype Pick = Pick(bank: nat, from: nat, to: nat)

  datatype Step = Skip | Error | Take(from: nat, to: nat)

  /** What becomes of a bank, given the notes. */
  function Judge(b: Bank, sFirst: int, sLast: int, first: nat, last: nat): Step
    requires |b.start| > 0 && -1 <= sFirst < |b.start| && -1 <= sLast < |b.start|
  {
    if sFirst >= 0 then
      var to := if sLast >= 0 then sLast else if last > BankEnd(b) then |b.start| - 1 else -1;
      if to < sFirst then Error else Take(sFirst, to)
    else if b.start[0] <= first < BankEnd(b) then Error
    else if sLast >= 0 then Error
    else Skip
  }

  /** Where the range goes on behind a run; past the last address the counter wraps to zero. */
  function NextFirst(b: Bank, to: nat): nat
    requires to < |b.start|
  {
    (SectorEnd(b, to) + 1) % WORD
  }

  // ---- all banks

  datatype Plan = Bad | Plan(picks: seq<Pick>, next: nat)

  ghost function Noted(b: Bank, first: nat, last: nat): (r: (int, int))
    requires ValidBank(b) && first <= last
    ensures Notes(b, r.0, r.1, first, last)
  {
    var f: int :| && -1 <= f < |b.start|
                  && if f >= 0 then StartsAt(b, f, first) else forall s: nat :: !StartsAt(b, s, first);
    var l: int :| && -1 <= l < |b.start|
                  && if l >= 0 then EndsAt(b, l, last) else forall s: nat :: !EndsAt(b, s, last);
    (f, l)
  }

  lemma NotesUnique(b: Bank, f: int, l: int, first: nat, last: nat)
    requires ValidBank(b) && first <= last && Notes(b, f, l, first, last)
    ensures Noted(b, first, last) == (f, l)
  {
    var (f', l') := Noted(b, first, last);
    if f >= 0 && f' >= 0 { OnlyOne(b, f, f', first); }
    if l >= 0 && l' >= 0 { OnlyOne(b, l, l', last); }
  }

  ghost function StepOf(b: Bank, first: nat, last: nat): Step
    requires ValidBank(b) && first <= last
  {
    var (f, l) := Noted(b, first, last);
    Judge(b, f, l, first, last)
  }

  /** The plan made from bank `k` on. */
  ghost function PlanFrom(banks: seq<Bank>, k: nat, first: nat, last: nat): Plan
    requires ValidBanks(banks) && k <= |banks|
    decreases |banks| - k
  {
    if k == |banks| || first > last then Plan([], first)
    else if !banks[k].known then PlanFrom(banks, k + 1, first, last)
    else
      match StepOf(banks[k], first, last)
      case Error => Bad
      case Skip => PlanFrom(banks, k + 1, first, last)
      case Take(from, to) =>
        if to >= |banks[k].start| then Bad
        else
          var rest := PlanFrom(banks, k + 1, NextFirst(banks[k], to), last);
          if rest.Bad? then Bad else Plan([Pick(k, from, to)] + rest.picks, rest.next)
  }

  function CountOf(picks: seq<Pick>): int {
    if picks == [] then 0 else CountOf(picks[..|picks| - 1]) + picks[|picks| - 1].to - picks[|picks| - 1].from + 1
  }

  function SlotOf(picks: seq<Pick>, k: nat): (int, int) {
    if picks == [] then (-1, -1)
    else if picks[|picks| - 1].bank == k then (picks[|picks| - 1].from as int, picks[|picks| - 1].to as int)
    else SlotOf(picks[..|picks| - 1], k)
  }

  function Join(picks: seq<Pick>, p: Plan): Plan {
    if p.Bad? then Bad else Plan(picks + p.picks, p.next)
  }

  /** flash_fill_sect_ranges: per bank the first and last sector, or -1, and the number of sectors. */
  method FillSectRanges(banks: seq<Bank>, addrFirst: nat, last: nat)
    returns (ok: bool, sFirst: seq<int>, sLast: seq<int>, count: int, ghost picks: seq<Pick>)
    requires ValidBanks(banks)
    ensures |sFirst| == |banks| == |sLast|
    ensures ok == !PlanFrom(banks, 0, addrFirst, last).Bad?
    ensures ok ==> picks == PlanFrom(banks, 0, addrFirst, last).picks && count == CountOf(picks)
    ensures ok ==> forall k | 0 <= k < |banks| :: (sFirst[k], sLast[k]) == SlotOf(picks, k)
  {
    hide StepOf, Notes, ValidBank, NextFirst, SlotOf, CountOf, Slotted;
    sFirst, sLast, count, picks := seq(|banks|, _ => -1), seq(|banks|, _ => -1), 0, [];
    NothingSlotted(sFirst, sLast, |banks|);
    var first: nat := addrFirst;
    var k := 0;
    while k < |banks| && first <= last
      invariant k <= |banks| && Slotted(sFirst, sLast, picks, |banks|) && count == CountOf(picks)
      invariant PlanFrom(banks, 0, addrFirst, last) == Join(picks, PlanFrom(banks, k, first, last))
    {
      var b := banks[k];
      if b.known {
        var f, l := ScanBank(b, first, last);
        StepIs(b, f, l, first, last);
        NotesRange(b, f, l, first, last);
        var step := Judge(b, f, l, first, last);
        SlotsOf(sFirst, sLast, picks, |banks|);
        if step.Error? { return false, sFirst, sLast, count, picks; }
        if step.Take? {
          ghost var pick := Pick(k, step.from, step.to);
          AddPick(picks, pick);
          SlotAdded(sFirst, sLast, picks, |banks|, pick);
          sFirst, sLast := sFirst[k := step.from], sLast[k := step.to];
          count := count + step.to - step.from + 1;
          ghost var rest := PlanFrom(banks, k + 1, NextFirst(b, step.to), last);
          assert rest.Plan? ==> picks + ([pick] + rest.picks) == picks + [pick] + rest.picks;
          picks := picks + [pick];
          first := NextFirst(b, step.to);
        }
      }
      k := k + 1;
    }
    SlotsOf(sFirst, sLast, picks, |banks|);
    assert picks + [] == picks;
    ok := true;
  }

  /** The two arrays hold the runs, -1 where there is none. */
  ghost predicate Slotted(sFirst: seq<int>, sLast: seq<int>, picks: seq<Pick>, n: nat) {
    |sFirst| == n == |sLast| && forall j | 0 <= j < n :: (sFirst[j], sLast[j]) == SlotOf(picks, j)
  }

  lemma NothingSlotted(sFirst: seq<int>, sLast: seq<int>, n: nat)
    requires |sFirst| == n == |sLast| && forall j | 0 <= j < n :: sFirst[j] == -1 == sLast[j]
    ensures Slotted(sFirst, sLast, [], n) && CountOf([]) == 0
  {
  }

  lemma SlotsOf(sFirst: seq<int>, sLast: seq<int>, picks: seq<Pick>, n: nat)
    requires Slotted(sFirst, sLast, picks, n)
    ensures |sFirst| == n == |sLast| && forall j | 0 <= j < n :: (sFirst[j], sLast[j]) == SlotOf(picks, j)
  {
  }

  lemma SlotAdded(sFirst: seq<int>, sLast: seq<int>, picks: seq<Pick>, n: nat, p: Pick)
    requires Slotted(sFirst, sLast, picks, n) && p.bank < n
    ensures Slotted(sFirst[p.bank := p.from], sLast[p.bank := p.to], picks + [p], n)
  {
    hide SlotOf;
    AddPick(picks, p);
  }

  lemma StepIs(b: Bank, f: int, l: int, first: nat, last: nat)
    requires ValidBank(b) && first <= last && Notes(b, f, l, first, last)
    ensures StepOf(b, first, last) == Judge(b, f, l, first, last)
  {
    NotesUnique(b, f, l, first, last);
  }

  lemma NotesRange(b: Bank, f: int, l: int, first: nat, last: nat)
    requires ValidBank(b) && Notes(b, f, l, first, last)
    ensures |b.start| > 0 && -1 <= f < |b.start| && -1 <= l < |b.start|
  {
  }

  lemma AddPick(picks: seq<Pick>, p: Pick)
    ensures CountOf(picks + [p]) == CountOf(picks) + p.to - p.from + 1
    ensures forall k: nat ::
              SlotOf(picks + [p], k) == if k == p.bank then (p.from as int, p.to as int) else SlotOf(picks, k)
  {
    assert (picks + [p])[..|picks + [p]| - 1] == picks;
  }

  // ---- what the plan covers

  ghost predicate ValidPick(banks: seq<Bank>, p: Pick) {
    p.bank < |banks| && banks[p.bank].known && p.from <= p.to < |banks[p.bank].start|
  }

  /** The runs lie end to end: the first starts at `lo`, the last ends just before `hi`. */
  ghost predicate Tiles(banks: seq<Bank>, picks: seq<Pick>, lo: int, hi: int)
    decreases |picks|
  {
    if picks == [] then lo == hi
    else
      && ValidPick(banks, picks[0])
      && banks[picks[0].bank].start[picks[0].from] == lo
      && Tiles(banks, picks[1..], SectorEnd(banks[picks[0].bank], picks[0].to) + 1, hi)
  }

  /** What a bank that is taken contributes. */
  lemma TakeFacts(b: Bank, first: nat, last: nat)
    requires ValidBank(b) && first <= last && StepOf(b, first, last).Take?
    ensures var t := StepOf(b, first, last);
            && t.from <= t.to < |b.start| && b.start[t.from] == first
            && first <= SectorEnd(b, t.to) <= last && SectorEnd(b, t.to) < WORD
            && (SectorEnd(b, t.to) == last || (t.to == |b.start| - 1 && BankEnd(b) < last))
            && (SectorEnd(b, t.to) == WORD - 1 ==> last == WORD - 1 == BankEnd(b) || last >= WORD)
  {
    var t := StepOf(b, first, last);
    SectorOrder(b, t.to);
    SectorOrder(b, t.from);
    if t.from < t.to { assert b.start[t.from] < b.start[t.to]; }
  }

  /** Below the top of the address space, the plan is one seamless stretch from the first address on, in the range. */
  lemma {:induction false} TilesBelowTop(banks: seq<Bank>, k: nat, first: nat, last: nat)
    requires ValidBanks(banks) && k <= |banks| && last < WORD - 1
    ensures var p := PlanFrom(banks, k, first, last);
            p.Plan? ==> Tiles(banks, p.picks, first, p.next) && (p.picks != [] ==> first < p.next <= last + 1)
    decreases |banks| - k
  {
    hide StepOf, ValidBank, Tiles;
    if k < |banks| && first <= last {
      var b := banks[k];
      if b.known && StepOf(b, first, last).Take? {
        TakeFacts(b, first, last);
        var t := StepOf(b, first, last);
        TilesBelowTop(banks, k + 1, NextFirst(b, t.to), last);
        var p, rest := PlanFrom(banks, k, first, last), PlanFrom(banks, k + 1, NextFirst(b, t.to), last);
        if p.Plan? {
          TilesCons(banks, Pick(k, t.from, t.to), rest.picks, first, p.next);
          NothingTaken(banks, k + 1, NextFirst(b, t.to), last);
        }
      } else {
        TilesBelowTop(banks, k + 1, first, last);
      }
    } else {
      NoTiles(banks, first);
    }
  }

  /** A run lies inside the range. */
  ghost predicate Inside(banks: seq<Bank>, p: Pick, first: int, last: int) {
    && ValidPick(banks, p)
    && forall s | p.from <= s <= p.to :: first <= banks[p.bank].start[s] && SectorEnd(banks[p.bank], s) <= last
  }

  lemma PickInside(banks: seq<Bank>, p: Pick, first: int, last: int)
    requires ValidBanks(banks) && ValidPick(banks, p)
    ensures Inside(banks, p, first, last)
       <==> first <= banks[p.bank].start[p.from] && SectorEnd(banks[p.bank], p.to) <= last
  {
    var b := banks[p.bank];
    forall s | p.from <= s <= p.to ensures b.start[p.from] <= b.start[s] && SectorEnd(b, s) <= SectorEnd(b, p.to) {
      SectorOrder(b, s);
      SectorOrder(b, p.to);
      if p.from < s { assert b.start[p.from] < b.start[s]; }
    }
  }

  lemma {:induction false} TilesInside(banks: seq<Bank>, picks: seq<Pick>, lo: int, hi: int)
    requires ValidBanks(banks) && Tiles(banks, picks, lo, hi)
    ensures lo <= hi && forall j | 0 <= j < |picks| :: Inside(banks, picks[j], lo, hi - 1)
    decreases |picks|
  {
    hide Inside, ValidBank;
    if picks != [] {
      var p := picks[0];
      var mid := SectorEnd(banks[p.bank], p.to) + 1;
      TilesInside(banks, picks[1..], mid, hi);
      PickInside(banks, p, lo, hi - 1);
      TakenForward(banks, p);
      forall j | 0 <= j < |picks| ensures Inside(banks, picks[j], lo, hi - 1) {
        if j > 0 {
          assert picks[j] == picks[1..][j - 1];
          InsideWider(banks, picks[j], mid, hi - 1, lo);
        }
      }
    }
  }

  lemma TakenForward(banks: seq<Bank>, p: Pick)
    requires ValidBanks(banks) && ValidPick(banks, p)
    ensures banks[p.bank].start[p.from] <= SectorEnd(banks[p.bank], p.to)
  {
    var b := banks[p.bank];
    SectorOrder(b, p.to);
    if p.from < p.to { assert b.start[p.from] < b.start[p.to]; }
  }

  lemma InsideWider(banks: seq<Bank>, p: Pick, mid: int, last: int, lo: int)
    requires Inside(banks, p, mid, last) && lo <= mid
    ensures Inside(banks, p, lo, last)
  {
  }

  // ---- at the top of the address space

  predicate EndsAtTop(b: Bank) {
    b.known && |b.start| > 0 && BankEnd(b) == WORD - 1
  }

  predicate StartsAtZero(b: Bank) {
    b.known && |b.start| > 0 && b.start[0] == 0
  }

  /** A bank that ends at the top is followed, in the bank table, by one that starts at zero. */
  ghost predicate ZeroAfterTop(banks: seq<Bank>, k: nat) {
    exists i, j | k <= i < j < |banks| :: EndsAtTop(banks[i]) && StartsAtZero(banks[j])
  }

  /** Once the counter has wrapped to zero, a run is taken exactly when a bank starting at zero is still to come. */
  lemma {:induction false} AfterWrap(banks: seq<Bank>, k: nat)
    requires ValidBanks(banks) && k <= |banks|
    ensures var p := PlanFrom(banks, k, 0, WORD - 1);
            p.Plan? ==>
              && (p.picks != [] <==> exists j | k <= j < |banks| :: StartsAtZero(banks[j]))
              && (p.picks != [] ==> ValidPick(banks, p.picks[0]) && banks[p.picks[0].bank].start[p.picks[0].from] == 0)
    decreases |banks| - k
  {
    hide StepOf, ValidBank;
    if k < |banks| {
      AfterWrap(banks, k + 1);
      var b := banks[k];
      if b.known {
        ZeroStep(b);
        if StepOf(b, 0, WORD - 1).Take? { TakeFacts(b, 0, WORD - 1); }
      }
    }
  }

  lemma ZeroStep(b: Bank)
    requires ValidBank(b) && b.known
    ensures var t := StepOf(b, 0, WORD - 1); t.Take? <==> StartsAtZero(b)
  {
    var (f, l) := Noted(b, 0, WORD - 1);
    assert f >= 0 <==> b.start[0] == 0 by {
      assert forall t | 0 < t < |b.start| :: b.start[0] < b.start[t];
      if b.start[0] == 0 { assert StartsAt(b, 0, 0); }
    }
    if b.start[0] == 0 {
      assert EndsAt(b, |b.start| - 1, BankEnd(b));
      if l >= 0 { SectorOrder(b, l); }
    }
  }

  /** A bank that ends at the top is never passed over when the range does too. */
  lemma TopStep(b: Bank, first: nat)
    requires ValidBank(b) && b.known && first <= WORD - 1
    ensures var t := StepOf(b, first, WORD - 1);
            && (t.Skip? ==> !EndsAtTop(b))
            && (t.Take? ==> (EndsAtTop(b) <==> SectorEnd(b, t.to) == WORD - 1))
  {
    var (f, l) := Noted(b, first, WORD - 1);
    assert EndsAt(b, |b.start| - 1, BankEnd(b));
    if l >= 0 { SectorOrder(b, l); }
  }

  ghost predicate AllValid(banks: seq<Bank>, picks: seq<Pick>) {
    forall j | 0 <= j < |picks| :: ValidPick(banks, picks[j])
  }

  lemma {:induction false} PlanValid(banks: seq<Bank>, k: nat, first: nat, last: nat)
    requires ValidBanks(banks) && k <= |banks|
    ensures var p := PlanFrom(banks, k, first, last); p.Plan? ==> AllValid(banks, p.picks)
    decreases |banks| - k
  {
    hide StepOf, ValidBank;
    if k < |banks| && first <= last {
      var b := banks[k];
      PlanValid(banks, k + 1, first, last);
      if b.known && StepOf(b, first, last).Take? {
        TakeFacts(b, first, last);
        PlanValid(banks, k + 1, NextFirst(b, StepOf(b, first, last).to), last);
      }
    }
  }

  ghost predicate Below(banks: seq<Bank>, p: Pick, x: int) {
    ValidPick(banks, p) && banks[p.bank].start[p.from] < x
  }

  /** Some run starts below an address. */
  ghost predicate SomeBelow(banks: seq<Bank>, picks: seq<Pick>, x: int) {
    exists j | 0 <= j < |picks| :: Below(banks, picks[j], x)
  }

  lemma SomeBelowCons(banks: seq<Bank>, p: Pick, rest: seq<Pick>, x: int)
    ensures SomeBelow(banks, [p] + rest, x) <==> Below(banks, p, x) || SomeBelow(banks, rest, x)
  {
    hide Below;
    var all := [p] + rest;
    assert all[0] == p;
    forall j | 0 <= j < |rest| ensures all[j + 1] == rest[j] { }
  }

  lemma ZeroAfterTopStep(banks: seq<Bank>, k: nat)
    requires k < |banks|
    ensures ZeroAfterTop(banks, k)
       <==> (EndsAtTop(banks[k]) && exists j | k < j < |banks| :: StartsAtZero(banks[j])) || ZeroAfterTop(banks, k + 1)
    ensures ZeroAfterTop(banks, k + 1) ==> exists j | k < j < |banks| :: StartsAtZero(banks[j])
  {
    hide EndsAtTop, StartsAtZero;
  }

  /** From an address above zero up to the top: a run below the first address appears exactly through the wrap. */
  lemma {:induction false} TopRange(banks: seq<Bank>, k: nat, first0: nat, first: nat)
    requires ValidBanks(banks) && k <= |banks| && 0 < first0 <= first < WORD
    ensures var p := PlanFrom(banks, k, first, WORD - 1);
            p.Plan? ==> (SomeBelow(banks, p.picks, first0) <==> ZeroAfterTop(banks, k))
    decreases |banks| - k
  {
    hide StepOf, ValidBank, SomeBelow, ZeroAfterTop, EndsAtTop, StartsAtZero;
    if k == |banks| {
      NothingBelow(banks, first0);
    } else {
      var b := banks[k];
      ZeroAfterTopStep(banks, k);
      if !b.known {
        TopRange(banks, k + 1, first0, first);
        UnknownBank(b);
      } else {
        TopStep(b, first);
        var t := StepOf(b, first, WORD - 1);
        if t.Take? {
          TakeFacts(b, first, WORD - 1);
          TopTake(banks, k, first0, first);
          if !EndsAtTop(b) { TopRange(banks, k + 1, first0, NextFirst(b, t.to)); }
        } else {
          TopRange(banks, k + 1, first0, first);
        }
      }
    }
  }

  lemma NothingBelow(banks: seq<Bank>, x: int)
    ensures !SomeBelow(banks, [], x) && !ZeroAfterTop(banks, |banks|)
  {
  }

  lemma UnknownBank(b: Bank)
    requires !b.known
    ensures !EndsAtTop(b)
  {
  }

  /** A run that is taken does not start below; those behind it do if the counter wrapped and zero is still to come. */
  lemma TopTake(banks: seq<Bank>, k: nat, first0: nat, first: nat)
    requires ValidBanks(banks) && k < |banks| && 0 < first0 <= first < WORD
    requires banks[k].known && StepOf(banks[k], first, WORD - 1).Take?
    ensures var p, b, t := PlanFrom(banks, k, first, WORD - 1), banks[k], StepOf(banks[k], first, WORD - 1);
            t.to < |b.start| &&
            var rest := PlanFrom(banks, k + 1, NextFirst(b, t.to), WORD - 1);
            p.Plan? ==>
              && rest.Plan? && (SomeBelow(banks, p.picks, first0) <==> SomeBelow(banks, rest.picks, first0))
              && (EndsAtTop(b) ==> (SomeBelow(banks, rest.picks, first0)
                               <==> exists j | k < j < |banks| :: StartsAtZero(banks[j])))
  {
    hide StepOf, ValidBank;
    var p, b, t := PlanFrom(banks, k, first, WORD - 1), banks[k], StepOf(banks[k], first, WORD - 1);
    TakeFacts(b, first, WORD - 1);
    TopStep(b, first);
    var rest := PlanFrom(banks, k + 1, NextFirst(b, t.to), WORD - 1);
    if p.Plan? {
      SomeBelowCons(banks, Pick(k, t.from, t.to), rest.picks, first0);
      if EndsAtTop(b) {
        AfterWrap(banks, k + 1);
        if rest.picks != [] { assert Below(banks, rest.picks[0], first0); }
      }
    }
  }

  /**
    A plan that was made selects only sectors inside the range, except when the range runs up to the
    top of the address space from above zero and the table lists a bank ending there before one
    starting at zero.
   */
  lemma PlanInside(banks: seq<Bank>, first: nat, last: nat)
    requires ValidBanks(banks) && first <= last < WORD
    ensures var p := PlanFrom(banks, 0, first, last);
            p.Plan? ==> ((forall j | 0 <= j < |p.picks| :: Inside(banks, p.picks[j], first, last))
                    <==> !(last == WORD - 1 && first > 0 && ZeroAfterTop(banks, 0)))
  {
    hide PlanFrom, ValidBanks, Inside, ZeroAfterTop;
    var p := PlanFrom(banks, 0, first, last);
    if p.Plan? {
      if last < WORD - 1 {
        TilesBelowTop(banks, 0, first, last);
        TilesInside(banks, p.picks, first, p.next);
        forall j | 0 <= j < |p.picks| ensures Inside(banks, p.picks[j], first, last) {
          InsideLonger(banks, p.picks[j], first, p.next - 1, last);
        }
      } else {
        PlanValid(banks, 0, first, last);
        forall j | 0 <= j < |p.picks|
          ensures Inside(banks, p.picks[j], first, last) <==> !Below(banks, p.picks[j], first)
        {
          AtTop(banks, p.picks[j], first);
        }
        if first > 0 { TopRange(banks, 0, first, first); }
      }
    }
  }

  /** Just behind the last sector of a plan; the top of the address space if the counter wrapped there. */
  function Reach(p: Plan): nat
    requires p.Plan?
  {
    if p.picks != [] && p.next == 0 then WORD else p.next
  }

  lemma {:induction false} NothingTaken(banks: seq<Bank>, k: nat, first: nat, last: nat)
    requires ValidBanks(banks) && k <= |banks|
    ensures var p := PlanFrom(banks, k, first, last); p.Plan? && p.picks == [] ==> p.next == first
    decreases |banks| - k
  {
    hide StepOf, ValidBank, NextFirst;
    if k < |banks| { NothingTaken(banks, k + 1, first, last); }
  }

  lemma TilesCons(banks: seq<Bank>, p: Pick, rest: seq<Pick>, lo: int, hi: int)
    requires ValidPick(banks, p)
    ensures Tiles(banks, [p] + rest, lo, hi)
       <==> banks[p.bank].start[p.from] == lo && Tiles(banks, rest, SectorEnd(banks[p.bank], p.to) + 1, hi)
  {
    assert ([p] + rest)[1..] == rest;
  }

  /** Up to the top of the address space: seamless exactly when no bank at zero follows one at the top. */
  lemma {:induction false} TilesAtTop(banks: seq<Bank>, k: nat, first: nat, hi: int)
    requires ValidBanks(banks) && k <= |banks| && first < WORD
    ensures var p := PlanFrom(banks, k, first, WORD - 1);
            p.Plan? ==> && (ZeroAfterTop(banks, k) ==> !Tiles(banks, p.picks, first, hi))
                        && (!ZeroAfterTop(banks, k) ==> Tiles(banks, p.picks, first, Reach(p)))
    decreases |banks| - k
  {
    hide StepOf, ValidBank, ZeroAfterTop, EndsAtTop, StartsAtZero, Tiles;
    if k == |banks| {
      NothingBelow(banks, 0);
      NoTiles(banks, first);
    } else {
      var b := banks[k];
      ZeroAfterTopStep(banks, k);
      if !b.known {
        UnknownBank(b);
        TilesAtTop(banks, k + 1, first, hi);
      } else {
        TopStep(b, first);
        if StepOf(b, first, WORD - 1).Take? {
          TakeAtTop(banks, k, first, hi);
        } else {
          TilesAtTop(banks, k + 1, first, hi);
        }
      }
    }
  }

  lemma NoTiles(banks: seq<Bank>, first: nat)
    ensures Tiles(banks, [], first, first)
  {
  }

  lemma {:induction false} TakeAtTop(banks: seq<Bank>, k: nat, first: nat, hi: int)
    requires ValidBanks(banks) && k < |banks| && first < WORD
    requires banks[k].known && StepOf(banks[k], first, WORD - 1).Take?
    ensures var p := PlanFrom(banks, k, first, WORD - 1);
            p.Plan? ==> && (ZeroAfterTop(banks, k) ==> !Tiles(banks, p.picks, first, hi))
                        && (!ZeroAfterTop(banks, k) ==> Tiles(banks, p.picks, first, Reach(p)))
    decreases |banks| - k, 0
  {
    hide StepOf, ValidBank, ZeroAfterTop, EndsAtTop, StartsAtZero, Tiles;
    var b, p := banks[k], PlanFrom(banks, k, first, WORD - 1);
    ZeroAfterTopStep(banks, k);
    TopStep(b, first);
    TakeFacts(b, first, WORD - 1);
    var t := StepOf(b, first, WORD - 1);
    var pick, next := Pick(k, t.from, t.to), NextFirst(b, t.to);
    var rest := PlanFrom(banks, k + 1, next, WORD - 1);
    if p.Plan? {
      TilesCons(banks, pick, rest.picks, first, hi);
      TilesCons(banks, pick, rest.picks, first, Reach(p));
      if EndsAtTop(b) {
        AfterWrap(banks, k + 1);
        NothingTaken(banks, k + 1, next, WORD - 1);
        if rest.picks == [] { NoTiles(banks, WORD); } else { TilesFirst(banks, rest.picks, WORD, hi); }
      } else {
        TilesAtTop(banks, k + 1, next, hi);
        NothingTaken(banks, k + 1, next, WORD - 1);
      }
    }
  }

  lemma TilesFirst(banks: seq<Bank>, picks: seq<Pick>, lo: int, hi: int)
    requires picks != [] && ValidPick(banks, picks[0]) && banks[picks[0].bank].start[picks[0].from] != lo
    ensures !Tiles(banks, picks, lo, hi)
  {
  }

  /**
    The runs of a plan lie end to end from the first address on, exactly unless the range ends at the
    top of the address space and a bank at zero is listed behind one at the top.
   */
  lemma PlanTiles(banks: seq<Bank>, first: nat, last: nat)
    requires ValidBanks(banks) && first <= last < WORD
    ensures var p := PlanFrom(banks, 0, first, last);
            var wraps := last == WORD - 1 && ZeroAfterTop(banks, 0);
            p.Plan? ==> && ((exists hi: int :: Tiles(banks, p.picks, first, hi)) <==> !wraps)
                        && (!wraps ==> Tiles(banks, p.picks, first, Reach(p)))
  {
    hide PlanFrom, Tiles, ZeroAfterTop, ValidBanks;
    var p := PlanFrom(banks, 0, first, last);
    if p.Plan? {
      if last < WORD - 1 {
        TilesBelowTop(banks, 0, first, last);
        NothingTaken(banks, 0, first, last);
      } else {
        forall hi: int
          ensures ZeroAfterTop(banks, 0) ==> !Tiles(banks, p.picks, first, hi)
          ensures !ZeroAfterTop(banks, 0) ==> Tiles(banks, p.picks, first, Reach(p))
        {
          TilesAtTop(banks, 0, first, hi);
        }
        TilesAtTop(banks, 0, first, 0);
      }
    }
  }

  /** Erasing the last 4 KiB of the address space also takes a later bank at zero. */
  lemma WrapTakesTooMuch()
    ensures var banks := [Bank(true, [WORD - 4096], 4096), Bank(true, [0], 4096)];
            ValidBanks(banks) && PlanFrom(banks, 0, WORD - 4096, WORD - 1) == Plan([Pick(0, 0, 0), Pick(1, 0, 0)], 4096)
  {
    var banks := [Bank(true, [WORD - 4096], 4096), Bank(true, [0], 4096)];
    assert StartsAt(banks[0], 0, WORD - 4096) && EndsAt(banks[0], 0, WORD - 1);
    StepIs(banks[0], 0, 0, WORD - 4096, WORD - 1);
    assert StartsAt(banks[1], 0, 0);
    StepIs(banks[1], 0, -1, 0, WORD - 1);
    assert PlanFrom(banks, 2, 4096, WORD - 1) == Plan([], 4096);
    assert PlanFrom(banks, 1, 0, WORD - 1) == Plan([Pick(1, 0, 0)], 4096);
  }

  lemma InsideLonger(banks: seq<Bank>, p: Pick, first: int, last: int, last': int)
    requires Inside(banks, p, first, last) && last <= last'
    ensures Inside(banks, p, first, last')
  {
  }

  lemma AtTop(banks: seq<Bank>, p: Pick, first: int)
    requires ValidBanks(banks) && ValidPick(banks, p)
    ensures Inside(banks, p, first, WORD - 1) <==> !Below(banks, p, first)
  {
    PickInside(banks, p, first, WORD - 1);
    SectorOrder(banks[p.bank], p.to);
  }

  // ---- banks that follow each other without a gap

  /** All banks are there, and each begins where the one before ends. */
  ghost predicate Contiguous(banks: seq<Bank>) {
    && (forall k | 0 <= k < |banks| :: banks[k].known && ValidBank(banks[k]))
    && (forall k | 0 < k < |banks| :: BankEnd(banks[k - 1]) + 1 == banks[k].start[0])
  }

  ghost predicate IsStart(banks: seq<Bank>, k: nat, x: int) {
    exists i, s: nat | k <= i < |banks| :: StartsAt(banks[i], s, x)
  }

  ghost predicate IsEnd(banks: seq<Bank>, k: nat, x: int) {
    exists i, s: nat | k <= i < |banks| :: EndsAt(banks[i], s, x)
  }

  /** Later banks lie higher. */
  lemma {:induction false} BanksAscend(banks: seq<Bank>, i: nat, j: nat)
    requires Contiguous(banks) && i < j < |banks|
    ensures BankEnd(banks[i]) < banks[j].start[0]
  {
    if i + 1 < j {
      BanksAscend(banks, i, j - 1);
      SectorOrder(banks[j - 1], 0);
    }
  }

  /** A boundary in bank `k` or later that is not behind bank `k` is one of bank `k`. */
  lemma BoundaryHere(banks: seq<Bank>, k: nat, x: int)
    requires Contiguous(banks) && k < |banks|
    ensures IsStart(banks, k, x) && x <= BankEnd(banks[k]) ==> exists s: nat :: StartsAt(banks[k], s, x)
    ensures IsEnd(banks, k, x) && x <= BankEnd(banks[k]) ==> exists s: nat :: EndsAt(banks[k], s, x)
    ensures IsStart(banks, k, x) && x > BankEnd(banks[k]) ==> IsStart(banks, k + 1, x)
    ensures IsEnd(banks, k, x) && x > BankEnd(banks[k]) ==> IsEnd(banks, k + 1, x)
  {
    if IsStart(banks, k, x) {
      var i, s: nat :| k <= i < |banks| && StartsAt(banks[i], s, x);
      SectorOrder(banks[i], s);
      if k < i { BanksAscend(banks, k, i); }
    }
    if IsEnd(banks, k, x) {
      var i, s: nat :| k <= i < |banks| && EndsAt(banks[i], s, x);
      SectorOrder(banks[i], s);
      if k < i { BanksAscend(banks, k, i); }
    }
  }

  /** A range from a sector start to a sector end is always planned, and tiled completely. */
  lemma {:induction false} BoundariesArePlanned(banks: seq<Bank>, k: nat, first: nat, last: nat)
    requires Contiguous(banks) && k <= |banks| && first <= last < WORD
    requires IsStart(banks, k, first) && IsEnd(banks, k, last)
    ensures var p := PlanFrom(banks, k, first, last); p.Plan? && Tiles(banks, p.picks, first, last + 1)
    decreases |banks| - k
  {
    hide StepOf, ValidBank, IsStart, IsEnd, Tiles;
    StartInside(banks, k, first);
    var b := banks[k];
    HasSector(b);
    BoundaryHere(banks, k, first);
    BoundaryHere(banks, k, last);
    BoundaryStep(b, first, last);
    if first > BankEnd(b) {
      BoundariesArePlanned(banks, k + 1, first, last);
    } else {
      TakeFacts(b, first, last);
      var t := StepOf(b, first, last);
      var pick, next := Pick(k, t.from, t.to), NextFirst(b, t.to);
      var rest := PlanFrom(banks, k + 1, next, last);
      if last > BankEnd(b) {
        NextBankStarts(banks, k, last);
        BoundariesArePlanned(banks, k + 1, next, last);
      } else {
        RangeEnds(banks, k, t.to, last);
      }
      TilesCons(banks, pick, rest.picks, first, last + 1);
    }
  }

  /** Behind the sector that ends the range nothing more is taken, at the top because no bank follows. */
  lemma RangeEnds(banks: seq<Bank>, k: nat, to: nat, last: nat)
    requires Contiguous(banks) && k < |banks| && to < |banks[k].start|
    requires SectorEnd(banks[k], to) == last < WORD
    ensures PlanFrom(banks, k + 1, NextFirst(banks[k], to), last) == Plan([], NextFirst(banks[k], to))
    ensures Tiles(banks, [], last + 1, last + 1)
  {
    hide StepOf, ValidBanks;
    if last == WORD - 1 && k + 1 < |banks| {
      SectorOrder(banks[k], to);
      BanksAscend(banks, k, k + 1);
      SectorOrder(banks[k + 1], 0);
    }
  }

  lemma HasSector(b: Bank)
    requires ValidBank(b)
    ensures |b.start| > 0
  {
  }

  lemma StartInside(banks: seq<Bank>, k: nat, x: int)
    requires IsStart(banks, k, x)
    ensures k < |banks|
  {
  }

  lemma NextBankStarts(banks: seq<Bank>, k: nat, last: int)
    requires Contiguous(banks) && k < |banks| && IsEnd(banks, k, last) && last > BankEnd(banks[k])
    ensures k + 1 < |banks| && IsStart(banks, k + 1, BankEnd(banks[k]) + 1)
  {
    BoundaryHere(banks, k, last);
    assert IsEnd(banks, k + 1, last);
    assert StartsAt(banks[k + 1], 0, BankEnd(banks[k]) + 1);
  }

  /** One bank of a range between boundaries. */
  lemma BoundaryStep(b: Bank, first: nat, last: nat)
    requires ValidBank(b) && first <= last
    requires first <= BankEnd(b) ==> exists s: nat :: StartsAt(b, s, first)
    requires last <= BankEnd(b) ==> exists s: nat :: EndsAt(b, s, last)
    ensures first > BankEnd(b) ==> StepOf(b, first, last).Skip?
    ensures first <= BankEnd(b) ==> StepOf(b, first, last).Take?
    ensures first <= BankEnd(b) < last ==> StepOf(b, first, last).to == |b.start| - 1
  {
    var (f, l) := Noted(b, first, last);
    if l >= 0 { SectorOrder(b, l); }
    if f >= 0 {
      SectorOrder(b, f);
    }
  }

  /** In contiguous banks, a plan with anything in it covers a range that ends in flash. */
  lemma {:induction false} PlanReachesEnd(banks: seq<Bank>, k: nat, first: nat, last: nat)
    requires Contiguous(banks) && k < |banks| && first <= last <= BankEnd(banks[|banks| - 1])
    ensures var p := PlanFrom(banks, k, first, last);
            p.Plan? && p.picks != [] ==> Tiles(banks, p.picks, first, last + 1)
    decreases |banks| - k
  {
    hide StepOf, ValidBank, Tiles;
    var b := banks[k];
    FlashEnds(banks, last);
    if StepOf(b, first, last).Take? {
      TakenOn(banks, k, first, last);
    } else if k + 1 < |banks| {
      PlanReachesEnd(banks, k + 1, first, last);
    }
  }

  lemma FlashEnds(banks: seq<Bank>, last: int)
    requires Contiguous(banks) && banks != [] && last <= BankEnd(banks[|banks| - 1])
    ensures last < WORD
  {
    SectorOrder(banks[|banks| - 1], 0);
  }

  /** A bank that is taken, and the banks behind it up to the end of the range. */
  lemma {:induction false} TakenOn(banks: seq<Bank>, k: nat, first: nat, last: nat)
    requires Contiguous(banks) && k < |banks| && first <= last <= BankEnd(banks[|banks| - 1])
    requires StepOf(banks[k], first, last).Take?
    ensures var p := PlanFrom(banks, k, first, last); p.Plan? ==> Tiles(banks, p.picks, first, last + 1)
    decreases |banks| - k
  {
    hide StepOf, ValidBank, Tiles;
    var b, p := banks[k], PlanFrom(banks, k, first, last);
    FlashEnds(banks, last);
    TakeFacts(b, first, last);
    var t := StepOf(b, first, last);
    var pick, next := Pick(k, t.from, t.to), NextFirst(b, t.to);
    var rest := PlanFrom(banks, k + 1, next, last);
    if p.Plan? {
      TilesCons(banks, pick, rest.picks, first, last + 1);
      if SectorEnd(b, t.to) == last {
        RangeEnds(banks, k, t.to, last);
      } else {
        HasSector(banks[k + 1]);
        assert StartsAt(banks[k + 1], 0, next);
        TakenFromStart(banks[k + 1], next, last);
        TakenOn(banks, k + 1, next, last);
      }
    }
  }

  lemma TakenFromStart(b: Bank, first: nat, last: nat)
    requires ValidBank(b) && first <= last && StartsAt(b, 0, first)
    ensures !StepOf(b, first, last).Skip?
  {
  }

  /** A range that ends with a sector but does not start with one is refused. */
  lemma {:induction false} StartMissed(banks: seq<Bank>, k: nat, first: nat, last: nat)
    requires Contiguous(banks) && k <= |banks| && first <= last < WORD
    requires !IsStart(banks, k, first) && IsEnd(banks, k, last)
    ensures PlanFrom(banks, k, first, last).Bad?
    decreases |banks| - k
  {
    hide ValidBank, ValidBanks, Judge;
    var b := banks[k];
    HasSector(b);
    if StepOf(b, first, last).Skip? { StillEnds(banks, k, first, last); }
    NotTaken(b, first, last);
    if StepOf(b, first, last).Skip? { StartMissed(banks, k + 1, first, last); }
  }

  lemma NotTaken(b: Bank, first: nat, last: nat)
    requires ValidBank(b) && first <= last && forall s: nat :: !StartsAt(b, s, first)
    ensures !StepOf(b, first, last).Take?
  {
  }

  /** A bank that is passed over does not hold the end of the range. */
  lemma StillEnds(banks: seq<Bank>, k: nat, first: nat, last: nat)
    requires k < |banks| && ValidBank(banks[k]) && first <= last && StepOf(banks[k], first, last).Skip?
    requires IsEnd(banks, k, last)
    ensures IsEnd(banks, k + 1, last)
  {
    var i, s: nat :| k <= i < |banks| && EndsAt(banks[i], s, last);
    assert i != k;
  }

  /**
    For a range that ends in flash, something is planned exactly when it starts and ends with a sector,
    and then the runs tile it completely.
   */
  lemma PlannedExactly(banks: seq<Bank>, first: nat, last: nat)
    requires Contiguous(banks) && banks != [] && first <= last <= BankEnd(banks[|banks| - 1])
    ensures var p := PlanFrom(banks, 0, first, last);
            && (p.Plan? && p.picks != [] <==> IsStart(banks, 0, first) && IsEnd(banks, 0, last))
            && (p.Plan? && p.picks != [] ==> Tiles(banks, p.picks, first, last + 1))
  {
    AllKnown(banks);
    hide PlanFrom, IsStart, IsEnd, ValidBanks, Contiguous;
    var p := PlanFrom(banks, 0, first, last);
    FlashEnds(banks, last);
    PlanReachesEnd(banks, 0, first, last);
    if IsStart(banks, 0, first) && IsEnd(banks, 0, last) { BoundariesArePlanned(banks, 0, first, last); }
    if p.Plan? && p.picks != [] { TilesEnds(banks, p.picks, first, last + 1); }
  }

  lemma {:induction false} TilesEnds(banks: seq<Bank>, picks: seq<Pick>, lo: int, hi: int)
    requires picks != [] && Tiles(banks, picks, lo, hi)
    ensures IsStart(banks, 0, lo) && IsEnd(banks, 0, hi - 1)
    decreases |picks|
  {
    var p := picks[0];
    assert StartsAt(banks[p.bank], p.from, lo);
    if |picks| > 1 {
      TilesEnds(banks, picks[1..], SectorEnd(banks[p.bank], p.to) + 1, hi);
    } else {
      assert EndsAt(banks[p.bank], p.to, hi - 1);
    }
  }

  // ---- the "+length" form

  /** flash_sect_roundb: the end of the sector that holds an address; None when no sector does. */
  method RoundUp(banks: seq<Bank>, addr: nat) returns (r: Option<nat>)
    ensures r.None? <==> !Holds(banks, addr)
    ensures r.Some? ==> RoundsTo(banks, addr, r.value)
  {
    hide SectorEnd;
    for k := 0 to |banks|
      invariant forall i, s: nat | 0 <= i < k :: !InSector(banks[i], s, addr)
    {
      for s := 0 to |banks[k].start|
        invariant forall t: nat | t < s :: !InSector(banks[k], t, addr)
      {
        var end := SectorEnd(banks[k], s);
        if addr <= end && addr >= banks[k].start[s] {
          assert InSector(banks[k], s, addr);
          return Some(end);
        }
      }
      NoSectorBeyond(banks[k], addr);
    }
    r := None;
  }

  ghost predicate InSector(b: Bank, s: nat, addr: int) {
    s < |b.start| && b.start[s] <= addr <= SectorEnd(b, s)
  }

  ghost predicate Holds(banks: seq<Bank>, addr: int) {
    exists i, s: nat | 0 <= i < |banks| :: InSector(banks[i], s, addr)
  }

  /** `end` is the end of a sector that holds the address. */
  ghost predicate RoundsTo(banks: seq<Bank>, addr: int, end: int) {
    exists k, s: nat | 0 <= k < |banks| :: InSector(banks[k], s, addr) && SectorEnd(banks[k], s) == end
  }

  lemma NoSectorBeyond(b: Bank, addr: int)
    ensures forall t: nat | t >= |b.start| :: !InSector(b, t, addr)
  {
  }

  /** No sector ends from `addr` on and before `last`. */
  ghost predicate LeastAbove(banks: seq<Bank>, addr: int, last: int) {
    forall e | IsEnd(banks, 0, e) && addr <= e :: last <= e
  }

  /** No sector ends between an address and the end of its own sector. */
  lemma LeastEnd(banks: seq<Bank>, k: nat, s: nat, addr: int)
    requires Contiguous(banks) && k < |banks| && InSector(banks[k], s, addr)
    ensures addr <= SectorEnd(banks[k], s) && IsEnd(banks, 0, SectorEnd(banks[k], s))
    ensures LeastAbove(banks, addr, SectorEnd(banks[k], s))
  {
    assert EndsAt(banks[k], s, SectorEnd(banks[k], s));
    SectorOrder(banks[k], s);
    forall e | IsEnd(banks, 0, e) && addr <= e ensures SectorEnd(banks[k], s) <= e {
      var i, t: nat :| 0 <= i < |banks| && EndsAt(banks[i], t, e);
      SectorOrder(banks[i], t);
      if i < k {
        BanksAscend(banks, i, k);
      } else if k < i {
        BanksAscend(banks, k, i);
      }
    }
  }

  /** The last address of "start +length", in the width of an address. */
  function LastOf(first: nat, length: nat): nat {
    (first + length - 1) % WORD
  }

  /** A range without overflow is one whose last address does not lie before the first. */
  lemma NoOverflow(first: nat, length: nat)
    requires first < WORD && 0 < length < WORD
    ensures first <= LastOf(first, length) <==> first + length <= WORD
    ensures first + length <= WORD ==> LastOf(first, length) == first + length - 1
  {
  }

  /** No sector starts between an address and the end of its own sector. */
  lemma StartNotInside(banks: seq<Bank>, k: nat, s: nat, x: int, first: int)
    requires Contiguous(banks) && k < |banks| && InSector(banks[k], s, x) && IsStart(banks, 0, first)
    ensures first <= SectorEnd(banks[k], s) <==> first <= x
  {
    var i, t: nat :| 0 <= i < |banks| && StartsAt(banks[i], t, first);
    hide Contiguous, ValidBank;
    if i < k {
      StartsBelow(banks, i, t, k, s);
    } else if k < i {
      StartsBelow(banks, k, s, i, t);
    } else {
      SameBank(banks, k, s, t);
    }
  }

  lemma StartsBelow(banks: seq<Bank>, i: nat, t: nat, k: nat, s: nat)
    requires Contiguous(banks) && i < k < |banks| && t < |banks[i].start| && s < |banks[k].start|
    ensures banks[i].start[t] <= SectorEnd(banks[i], t) < banks[k].start[s]
  {
    BanksAscend(banks, i, k);
    SectorOrder(banks[i], t);
    SectorOrder(banks[k], s);
  }

  lemma SameBank(banks: seq<Bank>, k: nat, s: nat, t: nat)
    requires Contiguous(banks) && k < |banks| && s < |banks[k].start| && t < |banks[k].start|
    ensures t <= s ==> banks[k].start[t] <= banks[k].start[s] <= SectorEnd(banks[k], s)
    ensures s < t ==> SectorEnd(banks[k], s) < banks[k].start[t]
  {
    SectorOrder(banks[k], s);
  }

  /**
    What "start +length" is accepted for: a range of flash that starts with a sector and does not run past
    the last address, unless it is the single byte of a sector of one byte; and the empty range at zero
    when flash reaches the top.
   */
  ghost predicate Accepted(banks: seq<Bank>, first: nat, length: nat) {
    && IsStart(banks, 0, first)
    && if length == 0 then first == 0 && Holds(banks, WORD - 1)
       else first + length <= WORD && Holds(banks, first + length - 1) && !(length == 1 && IsEnd(banks, 0, first))
  }

  /** The comparison of the addresses, with the end rounded up to `last`, decides just that. */
  lemma ComparisonDecides(banks: seq<Bank>, k: nat, s: nat, first: nat, length: nat, last: int)
    requires Contiguous(banks) && first < WORD && length < WORD && k < |banks|
    requires InSector(banks[k], s, LastOf(first, length)) && SectorEnd(banks[k], s) == last < WORD
    ensures IsStart(banks, 0, first) && first < last <==> Accepted(banks, first, length)
    ensures Accepted(banks, first, length) && length == 0 ==> last == WORD - 1
  {
    hide Contiguous, IsStart, IsEnd, LeastAbove, InSector;
    var x := LastOf(first, length);
    LeastEnd(banks, k, s, x);
    IsHeld(banks, k, s, x);
    if IsStart(banks, 0, first) {
      StartNotInside(banks, k, s, x, first);
      if length > 0 {
        NoOverflow(first, length);
        if first <= x { OneByte(banks, first, x, last); }
      }
    }
  }

  lemma IsHeld(banks: seq<Bank>, k: nat, s: nat, x: int)
    requires k < |banks| && InSector(banks[k], s, x)
    ensures Holds(banks, x)
  {
  }

  /** The end is not behind the start exactly for the single byte of a sector of one byte. */
  lemma OneByte(banks: seq<Bank>, first: int, x: int, last: int)
    requires first <= x <= last && IsEnd(banks, 0, last) && LeastAbove(banks, x, last)
    ensures first == last <==> x == first && IsEnd(banks, 0, first)
  {
    hide IsEnd;
  }

  /**
    "erase start +length": the end is rounded up to the end of its sector, and the range refused if that
    does not lie behind the start. An accepted range that is not empty is tiled by its least sector cover.
   */
  method PlanLength(banks: seq<Bank>, first: nat, length: nat)
    returns (ok: bool, last: nat, sFirst: seq<int>, sLast: seq<int>, count: int, ghost picks: seq<Pick>)
    requires Contiguous(banks) && first < WORD && length < WORD
    ensures ok <==> Accepted(banks, first, length)
    ensures ok && length > 0 ==>
              first + length - 1 <= last && IsEnd(banks, 0, last) && LeastAbove(banks, first + length - 1, last)
    ensures ok && length == 0 ==> last == WORD - 1
    ensures ok ==> Tiles(banks, picks, first, last + 1) && count == CountOf(picks)
    ensures ok ==> |sFirst| == |banks| == |sLast|
    ensures ok ==> forall k | 0 <= k < |banks| :: (sFirst[k], sLast[k]) == SlotOf(picks, k)
  {
    hide IsEnd, IsStart, Tiles, Contiguous, Holds, LeastAbove, Accepted, RoundsTo, LastOf, SlotOf, CountOf;
    last, sFirst, sLast, count, picks := LastOf(first, length), [], [], 0, [];
    var r := RoundUp(banks, last);
    if r.None? {
      NotInFlash(banks, first, length);
      return false, last, sFirst, sLast, count, picks;
    }
    RoundedUp(banks, first, length, r.value);
    last := r.value;
    if first >= last { return false, last, sFirst, sLast, count, picks; }
    ok, sFirst, sLast, count, picks := PlanSectors(banks, first, last);
  }

  /** A range that ends with a sector, as flash_sect_erase plans it. */
  method PlanSectors(banks: seq<Bank>, first: nat, last: nat)
    returns (ok: bool, sFirst: seq<int>, sLast: seq<int>, count: int, ghost picks: seq<Pick>)
    requires Contiguous(banks) && first <= last < WORD && IsEnd(banks, 0, last)
    ensures ok <==> IsStart(banks, 0, first)
    ensures ok ==> Tiles(banks, picks, first, last + 1) && count == CountOf(picks)
    ensures ok ==> |sFirst| == |banks| == |sLast|
    ensures ok ==> forall k | 0 <= k < |banks| :: (sFirst[k], sLast[k]) == SlotOf(picks, k)
  {
    AllKnown(banks);
    hide IsEnd, IsStart, Tiles, ValidBanks, Contiguous, PlanFrom, SlotOf, CountOf;
    ok, sFirst, sLast, count, picks := FillSectRanges(banks, first, last);
    if IsStart(banks, 0, first) {
      BoundariesArePlanned(banks, 0, first, last);
    } else {
      StartMissed(banks, 0, first, last);
    }
  }

  /** What the rounded end means for the range. */
  lemma RoundedUp(banks: seq<Bank>, first: nat, length: nat, last: nat)
    requires Contiguous(banks) && first < WORD && length < WORD && RoundsTo(banks, LastOf(first, length), last)
    ensures last < WORD && IsEnd(banks, 0, last)
    ensures IsStart(banks, 0, first) && first < last <==> Accepted(banks, first, length)
    ensures Accepted(banks, first, length) && length == 0 ==> last == WORD - 1
    ensures Accepted(banks, first, length) && length > 0 ==>
              first + length - 1 <= last && LeastAbove(banks, first + length - 1, last)
  {
    hide IsEnd, IsStart, Contiguous, LeastAbove, Accepted;
    var x := LastOf(first, length);
    var k, s: nat :| 0 <= k < |banks| && InSector(banks[k], s, x) && SectorEnd(banks[k], s) == last;
    LeastEnd(banks, k, s, x);
    EndBelowTop(banks, last);
    ComparisonDecides(banks, k, s, first, length, last);
    if Accepted(banks, first, length) { LastInRange(banks, first, length); }
  }

  lemma AllKnown(banks: seq<Bank>)
    requires Contiguous(banks)
    ensures ValidBanks(banks)
  {
  }

  lemma NotInFlash(banks: seq<Bank>, first: nat, length: nat)
    requires first < WORD && length < WORD && !Holds(banks, LastOf(first, length))
    ensures !Accepted(banks, first, length)
  {
    hide Holds, IsStart, IsEnd;
    if length > 0 { NoOverflow(first, length); }
  }

  lemma LastInRange(banks: seq<Bank>, first: nat, length: nat)
    requires first < WORD && length < WORD && Accepted(banks, first, length)
    ensures length > 0 ==> LastOf(first, length) == first + length - 1
  {
    hide Holds, IsStart, IsEnd;
    if length > 0 { NoOverflow(first, length); }
  }

  /** "erase 0 +0" is accepted when one bank fills the address space, and then takes all of it. */
  lemma EmptyRangeTakesAll()
    ensures var banks := [Bank(true, [0], WORD)];
            && Contiguous(banks) && Accepted(banks, 0, 0)
            && PlanFrom(banks, 0, 0, WORD - 1) == Plan([Pick(0, 0, 0)], 0)
  {
    var banks := [Bank(true, [0], WORD)];
    assert StartsAt(banks[0], 0, 0) && EndsAt(banks[0], 0, WORD - 1) && InSector(banks[0], 0, WORD - 1);
    StepIs(banks[0], 0, 0, 0, WORD - 1);
    assert PlanFrom(banks, 1, 0, WORD - 1) == Plan([], 0);
  }

  lemma EndBelowTop(banks: seq<Bank>, x: int)
    requires Contiguous(banks) && IsEnd(banks, 0, x)
    ensures x < WORD
  {
    var i, s: nat :| 0 <= i < |banks| && EndsAt(banks[i], s, x);
    SectorOrder(banks[i], s);
  }
}
