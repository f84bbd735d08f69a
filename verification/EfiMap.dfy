/** efi_build_mem_table of cmd/efi.c: sorting the EFI memory map and coalescing it in place. */
module EfiMap {
  import opened Base

  const PAGE: nat := 4096

  const LOADER_CODE: nat := 1
  const LOADER_DATA: nat := 2
  const BOOT_SERVICES_CODE: nat := 3
  const BOOT_SERVICES_DATA: nat := 4
  const CONVENTIONAL: nat := 7
  const TABLE_END: nat := 16

  /** A memory descriptor (section 7.2 of the UEFI Specification); all fields but the type are 64 bits wide. */
  datatype Desc = Desc(kind: nat, start: nat, virt: nat, pages: nat, attr: nat)

  predicate IsBootServices(kind: nat) {
    kind == LOADER_CODE || kind == LOADER_DATA || kind == BOOT_SERVICES_CODE || kind == BOOT_SERVICES_DATA
  }

  // ---- order

  /** h_cmp_entry: the sign of the 64-bit difference read as a signed number. */
  function Compare(a: Desc, b: Desc): int {
    var diff := (a.start - b.start) % TWO64;
    if diff == 0 then 0 else if diff >= TWO63 then -1 else 1
  }

  /** The comparison is the order of the addresses exactly when their distance fits a signed number. */
  lemma CompareIsOrder(a: Desc, b: Desc)
    requires a.start < TWO64 && b.start < TWO64
    ensures Compare(a, b) == (if a.start < b.start then -1 else if a.start > b.start then 1 else 0)
       <==> b.start <= a.start + TWO63 && a.start < b.start + TWO63
  {
  }

  ghost predicate Sorted(ds: seq<Desc>) {
    forall i, j | 0 <= i < j < |ds| :: ds[i].start <= ds[j].start
  }

  /** Addresses of 64 bits that are less than half the address space apart. */
  ghost predicate Near(ds: seq<Desc>) {
    forall d, e | d in ds && e in ds :: Close(d, e)
  }

  predicate Close(d: Desc, e: Desc) {
    d.start < TWO64 && d.start < e.start + TWO63
  }

  function Place(ds: seq<Desc>, d: Desc): (k: nat)
    ensures k <= |ds|
    ensures forall i | 0 <= i < k :: Compare(ds[i], d) <= 0
    ensures k < |ds| ==> Compare(ds[k], d) > 0
  {
    if ds == [] || Compare(ds[0], d) > 0 then 0 else Place(ds[1..], d) + 1
  }

  function TotalPages(ds: seq<Desc>): nat {
    if ds == [] then 0 else TotalPages(ds[..|ds| - 1]) + ds[|ds| - 1].pages
  }

  lemma {:induction false} TotalInsert(ds: seq<Desc>, k: nat, d: Desc)
    requires k <= |ds|
    ensures TotalPages(ds[..k] + [d] + ds[k..]) == TotalPages(ds) + d.pages
  {
    var r := ds[..k] + [d] + ds[k..];
    if k == |ds| {
      assert r[..|r| - 1] == ds;
    } else {
      var front := ds[..|ds| - 1];
      assert r[..|r| - 1] == front[..k] + [d] + front[k..];
      TotalInsert(front, k, d);
    }
  }

  /** One past the last address, without wrap-around. */
  function Limit(d: Desc): nat {
    d.start + d.pages * PAGE
  }

  predicate Apart(d: Desc, e: Desc) {
    Limit(d) <= e.start || Limit(e) <= d.start
  }

  /** No two descriptors of the map overlap. */
  ghost predicate Disjoint(ds: seq<Desc>) {
    forall i, j | 0 <= i < j < |ds| :: Apart(ds[i], ds[j])
  }

  /** What sorting with h_cmp_entry leaves: always a permutation, in order where the comparison is an order. */
  ghost predicate SortedFrom(ds: seq<Desc>, r: seq<Desc>) {
    && (forall d :: d in r <==> d in ds) && |r| == |ds|
    && TotalPages(r) == TotalPages(ds)
    && (Near(ds) ==> Sorted(r))
    && (Disjoint(ds) ==> Disjoint(r))
  }

  /** Sorting by insertion, as a stand-in for the library's routine: it only looks at h_cmp_entry. */
  method Sort(ds: seq<Desc>) returns (r: seq<Desc>)
    ensures SortedFrom(ds, r) && multiset(r) == multiset(ds)
  {
    hide SortedFrom, Place;
    r := [];
    assert SortedFrom([], []) by { SortedNothing(); }
    for i := 0 to |ds|
      invariant SortedFrom(ds[..i], r) && multiset(r) == multiset(ds[..i])
    {
      assert ds[..i + 1] == ds[..i] + [ds[i]];
      var k := Place(r, ds[i]);
      InsertSorts(ds[..i], r, ds[i], k);
      assert r == r[..k] + r[k..];
      r := r[..k] + [ds[i]] + r[k..];
    }
    assert ds[..|ds|] == ds;
  }

  lemma SortedNothing()
    ensures SortedFrom([], [])
  {
  }

  lemma InsertSorts(ds: seq<Desc>, r: seq<Desc>, d: Desc, k: nat)
    requires SortedFrom(ds, r) && k == Place(r, d)
    ensures SortedFrom(ds + [d], r[..k] + [d] + r[k..])
  {
    hide TotalPages, Sorted, Disjoint, Place, Near;
    TotalInsert(r, k, d);
    assert ds[..|ds|] + [d] + ds[|ds|..] == ds + [d] && ds[..|ds|] == ds;
    TotalInsert(ds, |ds|, d);
    InsertKeepsOrder(ds, r, d, k);
    InsertKeepsApart(ds, r, d, k);
  }

  lemma InsertKeepsOrder(ds: seq<Desc>, r: seq<Desc>, d: Desc, k: nat)
    requires (forall x :: x in r <==> x in ds) && (Near(ds) ==> Sorted(r)) && k == Place(r, d)
    ensures Near(ds + [d]) ==> Sorted(r[..k] + [d] + r[k..])
  {
    hide Place, Compare, Close;
    if Near(ds + [d]) {
      var all := ds + [d];
      assert d in all;
      assert Near(ds) by { NearFront(ds, d); }
      forall j | 0 <= j < |r| ensures (j < k ==> r[j].start <= d.start) && (j == k ==> r[j].start > d.start) {
        assert r[j] in r;
        assert r[j] in all;
        assert Close(r[j], d) && Close(d, r[j]) && Close(d, d);
        CloseCompare(r[j], d);
      }
    }
  }

  lemma NearFront(ds: seq<Desc>, d: Desc)
    requires Near(ds + [d])
    ensures Near(ds)
  {
    hide Close;
    var all := ds + [d];
    forall x, y | x in ds && y in ds ensures Close(x, y) { assert x in all && y in all; }
  }

  lemma CloseCompare(a: Desc, b: Desc)
    requires Close(a, b) && Close(b, a)
    ensures Compare(a, b) <= 0 <==> a.start <= b.start
  {
    CompareIsOrder(a, b);
  }

  lemma InsertKeepsApart(ds: seq<Desc>, r: seq<Desc>, d: Desc, k: nat)
    requires (forall x :: x in r <==> x in ds) && (Disjoint(ds) ==> Disjoint(r)) && k <= |r|
    ensures Disjoint(ds + [d]) ==> Disjoint(r[..k] + [d] + r[k..])
  {
    hide Apart;
    if Disjoint(ds + [d]) {
      var all := ds + [d];
      assert Disjoint(ds) by { assert forall i | 0 <= i < |ds| :: ds[i] == all[i]; }
      forall j | 0 <= j < |r| ensures Apart(r[j], d) {
        assert r[j] in ds;
        var i :| 0 <= i < |ds| && ds[i] == r[j];
        assert Apart(all[i], all[|ds|]);
      }
      var out := r[..k] + [d] + r[k..];
      forall i, j | 0 <= i < j < |out| ensures Apart(out[i], out[j]) {
        ApartSwaps(out[i], out[j]);
        ApartSwaps(out[j], out[i]);
      }
    }
  }

  lemma ApartSwaps(d: Desc, e: Desc)
    ensures Apart(d, e) <==> Apart(e, d)
  {
  }

  // ---- coalescing, as a function

  function Retyped(d: Desc, skipBs: bool): Desc {
    if skipBs && IsBootServices(d.kind) then d.(kind := CONVENTIONAL) else d
  }

  function EndOf(d: Desc): nat {
    (d.start + d.pages * PAGE) % TWO64
  }

  /** Whether descriptor `d`, already retyped, joins the entry before it; `addr` is where the one before it ended. */
  predicate Merges(prev: Desc, d: Desc, addr: nat, skipBs: bool) {
    skipBs && d.start == addr && d.kind == CONVENTIONAL && prev.kind == CONVENTIONAL
  }

  function Coalesce(ds: seq<Desc>, skipBs: bool): (r: seq<Desc>)
    ensures |r| <= |ds| && (ds != [] ==> r != [])
  {
    if ds == [] then []
    else
      var n := |ds| - 1;
      var r, d := Coalesce(ds[..n], skipBs), Retyped(ds[n], skipBs);
      if r != [] && Merges(r[|r| - 1], d, EndOf(ds[n - 1]), skipBs)
      then r[|r| - 1 := r[|r| - 1].(pages := (r[|r| - 1].pages + d.pages) % TWO64)]
      else r + [d]
  }

  lemma CoalesceNothing(skipBs: bool)
    ensures Coalesce([], skipBs) == []
  {
  }

  lemma CoalesceStep(ds: seq<Desc>, k: nat, skipBs: bool)
    requires k < |ds|
    ensures var r, d := Coalesce(ds[..k], skipBs), Retyped(ds[k], skipBs);
            var next := if r != [] && Merges(r[|r| - 1], d, EndOf(ds[k - 1]), skipBs)
                        then r[|r| - 1 := r[|r| - 1].(pages := (r[|r| - 1].pages + d.pages) % TWO64)]
                        else r + [d];
            Coalesce(ds[..k + 1], skipBs) == next
  {
    hide Retyped, Merges, EndOf;
    assert ds[..k + 1][..k] == ds[..k];
  }

  /** The compaction loop: `desc` reads ahead of `dest` in the same array. */
  method CoalesceInPlace(base: array<Desc>, count: nat, skipBs: bool) returns (dest: nat)
    requires count < base.Length
    modifies base
    ensures dest <= count && base[..dest] == Coalesce(old(base[..count]), skipBs) && base[dest].kind == TABLE_END
  {
    hide Coalesce, Retyped, Merges, EndOf;
    ghost var ds := base[..count];
    var addr := 0;
    dest := 0;
    CoalesceNothing(skipBs);
    for desc := 0 to count
      invariant dest <= desc
      invariant base[..dest] == Coalesce(ds[..desc], skipBs)
      invariant forall k | desc <= k < count :: base[k] == ds[k]
      invariant desc > 0 ==> addr == EndOf(ds[desc - 1])
    {
      CoalesceStep(ds, desc, skipBs);
      ghost var done := base[..dest];
      var from := base[desc];
      var d := Retyped(from, skipBs);
      RetypedSame(from, skipBs);
      base[dest] := d;
      if dest > 0 && Merges(base[dest - 1], d, addr, skipBs) {
        base[dest - 1] := base[dest - 1].(pages := (base[dest - 1].pages + from.pages) % TWO64);
        assert base[..dest] == done[dest - 1 := base[dest - 1]];
      } else {
        dest := dest + 1;
        assert base[..dest] == done + [d];
      }
      addr := EndOf(from);
    }
    assert ds[..count] == ds;
    base[dest] := base[dest].(kind := TABLE_END);
  }

  // ---- what it preserves

  predicate Covers(d: Desc, a: nat) {
    d.start <= a < Limit(d)
  }

  /** No descriptor runs up to or past the end of the address space. */
  ghost predicate Bounded(ds: seq<Desc>) {
    forall i | 0 <= i < |ds| :: Limit(ds[i]) < TWO64
  }

  /** Descriptors with at least one page, one behind the other. */
  ghost predicate Layout(ds: seq<Desc>) {
    && Bounded(ds) && (forall i | 0 <= i < |ds| :: ds[i].pages > 0)
    && (forall i, j | 0 <= i < j < |ds| :: Limit(ds[i]) <= ds[j].start)
  }

  /** Address `a` lies in a descriptor of type `kind`, once boot services count as conventional. */
  ghost predicate Has(ds: seq<Desc>, a: nat, kind: nat, skipBs: bool) {
    exists d | d in ds :: Covers(d, a) && Retyped(d, skipBs).kind == kind
  }

  /** Neighbouring conventional entries do not touch. */
  ghost predicate NoneAbut(ds: seq<Desc>) {
    forall i | 0 < i < |ds| && ds[i - 1].kind == CONVENTIONAL == ds[i].kind :: Limit(ds[i - 1]) != ds[i].start
  }

  /** What the coalesced table keeps, in any order: above all, its last entry ends where the last descriptor did. */
  ghost predicate Shape(ds: seq<Desc>, r: seq<Desc>, skipBs: bool) {
    && Bounded(r)
    && (ds != [] ==> r != [] && Limit(r[|r| - 1]) == Limit(ds[|ds| - 1]))
    && TotalPages(r) == TotalPages(ds)
    && (skipBs ==> NoneAbut(r))
    && (forall i | 0 <= i < |r| :: Retyped(r[i], skipBs) == r[i])
  }

  lemma BoundedFront(ds: seq<Desc>)
    requires Bounded(ds) && ds != []
    ensures Bounded(ds[..|ds| - 1])
  {
  }

  lemma EndIsLimit(d: Desc)
    requires Limit(d) < TWO64
    ensures EndOf(d) == Limit(d)
  {
  }

  lemma RetypedSame(d: Desc, skipBs: bool)
    ensures var e := Retyped(d, skipBs);
            e.start == d.start && e.pages == d.pages && Limit(e) == Limit(d) && Retyped(e, skipBs) == e
  {
  }

  lemma TotalSnoc(ds: seq<Desc>, d: Desc)
    ensures TotalPages(ds + [d]) == TotalPages(ds) + d.pages
  {
    assert (ds + [d])[..|ds + [d]| - 1] == ds;
  }

  /** Appending a separate entry. */
  lemma AppendShape(front: seq<Desc>, last: Desc, r: seq<Desc>, d: Desc, skipBs: bool)
    requires Bounded(front + [last]) && Shape(front, r, skipBs) && d == Retyped(last, skipBs)
    requires r != [] ==> front != [] && !Merges(r[|r| - 1], d, EndOf(front[|front| - 1]), skipBs)
    requires r == [] ==> front == []
    ensures Shape(front + [last], r + [d], skipBs)
  {
    hide Retyped, TotalPages, EndOf, Limit;
    var ds := front + [last];
    RetypedSame(last, skipBs);
    TotalSnoc(front, last);
    TotalSnoc(r, d);
    assert ds[|front|] == last;
    if r != [] {
      assert ds[|front| - 1] == front[|front| - 1];
      EndIsLimit(front[|front| - 1]);
    }
  }

  /** Extending the last entry. */
  lemma MergeShape(front: seq<Desc>, last: Desc, r: seq<Desc>, d: Desc, skipBs: bool)
    requires Bounded(front + [last]) && Shape(front, r, skipBs) && d == Retyped(last, skipBs)
    requires r != [] && front != [] && Merges(r[|r| - 1], d, EndOf(front[|front| - 1]), skipBs)
    ensures var e := r[|r| - 1];
            var e' := e.(pages := (e.pages + d.pages) % TWO64);
            && Limit(e') == Limit(last) && e.start <= Limit(e) == last.start && e'.start == e.start
            && e'.pages >= e.pages && Shape(front + [last], r[|r| - 1 := e'], skipBs)
  {
    hide Retyped, TotalPages, EndOf, Limit, NoneAbut;
    var ds, n := front + [last], |r| - 1;
    var e := r[n];
    RetypedSame(last, skipBs);
    assert ds[|front|] == last && ds[|front| - 1] == front[|front| - 1];
    EndIsLimit(front[|front| - 1]);
    LimitsAdd(e, d, last);
    var e' := e.(pages := e.pages + d.pages);
    TotalSnoc(front, last);
    assert r == r[..n] + [e] && r[n := e'] == r[..n] + [e'];
    TotalSnoc(r[..n], e);
    TotalSnoc(r[..n], e');
    StillConventional(e, e', skipBs);
    if skipBs { StillApart(r, e'); }
  }

  lemma LimitsAdd(e: Desc, d: Desc, last: Desc)
    requires Limit(e) == last.start == d.start && d.pages == last.pages && Limit(last) < TWO64
    ensures e.pages + d.pages < TWO64 && Limit(e.(pages := e.pages + d.pages)) == Limit(last)
    ensures e.start <= Limit(e)
  {
    assert (e.pages + d.pages) * PAGE == e.pages * PAGE + d.pages * PAGE;
  }

  lemma StillApart(r: seq<Desc>, e': Desc)
    requires NoneAbut(r) && r != [] && e'.start == r[|r| - 1].start && e'.kind == r[|r| - 1].kind
    ensures NoneAbut(r[|r| - 1 := e'])
  {
    hide Limit;
  }

  lemma StillConventional(e: Desc, e': Desc, skipBs: bool)
    requires e.kind == CONVENTIONAL == e'.kind
    ensures Retyped(e', skipBs) == e'
  {
  }

  /** In any order, overlapping or not: pages are kept, and no conventional neighbours touch when boot services go. */
  lemma {:induction false} CoalesceShape(ds: seq<Desc>, skipBs: bool)
    requires Bounded(ds)
    ensures Shape(ds, Coalesce(ds, skipBs), skipBs)
  {
    hide Bounded, Shape, Merges, Retyped, EndOf;
    if ds == [] {
      assert Shape([], [], skipBs) by { ShapeNothing(skipBs); }
    } else {
      var n := |ds| - 1;
      BoundedFront(ds);
      CoalesceShape(ds[..n], skipBs);
      assert ds == ds[..n] + [ds[n]];
      var r, d := Coalesce(ds[..n], skipBs), Retyped(ds[n], skipBs);
      if r != [] && Merges(r[|r| - 1], d, EndOf(ds[n - 1]), skipBs) {
        MergeShape(ds[..n], ds[n], r, d, skipBs);
      } else {
        AppendShape(ds[..n], ds[n], r, d, skipBs);
      }
    }
  }

  lemma LayoutFront(ds: seq<Desc>)
    requires Layout(ds) && ds != []
    ensures Layout(ds[..|ds| - 1]) && Bounded(ds) && Bounded(ds[..|ds| - 1])
  {
  }

  lemma AppendLayout(front: seq<Desc>, last: Desc, r: seq<Desc>, d: Desc, skipBs: bool)
    requires Layout(front + [last]) && Shape(front, r, skipBs) && Layout(r) && d == Retyped(last, skipBs)
    requires r != [] ==> front != []
    ensures Layout(r + [d])
  {
    hide Retyped, TotalPages, Limit, NoneAbut;
    var ds := front + [last];
    RetypedSame(last, skipBs);
    assert ds[|front|] == last;
    if r != [] {
      assert ds[|front| - 1] == front[|front| - 1];
      assert Limit(ds[|front| - 1]) <= ds[|front|].start;
      LastIsHighest(r);
    }
  }

  lemma LastIsHighest(r: seq<Desc>)
    requires Layout(r) && r != []
    ensures forall i | 0 <= i < |r| :: Limit(r[i]) <= Limit(r[|r| - 1])
  {
  }

  lemma MergeLayout(r: seq<Desc>, e': Desc)
    requires Layout(r) && r != [] && e'.start == r[|r| - 1].start && e'.pages >= r[|r| - 1].pages && Limit(e') < TWO64
    ensures Layout(r[|r| - 1 := e'])
  {
    hide Limit;
  }

  /** A map in order stays in order. */
  lemma {:induction false} CoalesceLayout(ds: seq<Desc>, skipBs: bool)
    requires Layout(ds)
    ensures Layout(Coalesce(ds, skipBs))
  {
    hide Layout, Bounded, Shape, Merges, Retyped, EndOf, Limit;
    if ds == [] {
      NoLayout();
    } else {
      var n := |ds| - 1;
      LayoutFront(ds);
      CoalesceLayout(ds[..n], skipBs);
      CoalesceShape(ds[..n], skipBs);
      LastBounded(ds);
      assert ds == ds[..n] + [ds[n]];
      var r, d := Coalesce(ds[..n], skipBs), Retyped(ds[n], skipBs);
      if r != [] && Merges(r[|r| - 1], d, EndOf(ds[n - 1]), skipBs) {
        MergeShape(ds[..n], ds[n], r, d, skipBs);
        MergeLayout(r, r[|r| - 1].(pages := (r[|r| - 1].pages + d.pages) % TWO64));
      } else {
        AppendLayout(ds[..n], ds[n], r, d, skipBs);
      }
    }
  }

  lemma NoLayout()
    ensures Layout([])
  {
  }

  lemma LastBounded(ds: seq<Desc>)
    requires Bounded(ds) && ds != []
    ensures Limit(ds[|ds| - 1]) < TWO64
  {
  }

  lemma ShapeNothing(skipBs: bool)
    ensures Shape([], [], skipBs)
  {
  }

  /** Every address keeps its type, boot services counting as conventional when they are skipped. */
  lemma {:induction false} CoalesceKeepsTypes(ds: seq<Desc>, skipBs: bool, a: nat, kind: nat)
    requires Bounded(ds)
    ensures Has(Coalesce(ds, skipBs), a, kind, skipBs) <==> Has(ds, a, kind, skipBs)
  {
    hide Bounded, Shape, EndOf, Retyped, Limit, Has, Covers, Merges;
    if ds != [] {
      var n := |ds| - 1;
      BoundedFront(ds);
      CoalesceShape(ds[..n], skipBs);
      CoalesceKeepsTypes(ds[..n], skipBs, a, kind);
      assert ds == ds[..n] + [ds[n]];
      var r, d := Coalesce(ds[..n], skipBs), Retyped(ds[n], skipBs);
      RetypedSame(ds[n], skipBs);
      HasSnoc(ds[..n], ds[n], a, kind, skipBs);
      if r != [] && Merges(r[|r| - 1], d, EndOf(ds[n - 1]), skipBs) {
        MergeKeepsTypes(ds[..n], ds[n], r, d, skipBs, a, kind);
      } else {
        HasSnoc(r, d, a, kind, skipBs);
        CoversSame(d, ds[n], a);
      }
    }
  }

  lemma MergeKeepsTypes(front: seq<Desc>, last: Desc, r: seq<Desc>, d: Desc, skipBs: bool, a: nat, kind: nat)
    requires Bounded(front + [last]) && Shape(front, r, skipBs) && d == Retyped(last, skipBs)
    requires r != [] && front != [] && Merges(r[|r| - 1], d, EndOf(front[|front| - 1]), skipBs)
    ensures var e := r[|r| - 1];
            var merged := r[|r| - 1 := e.(pages := (e.pages + d.pages) % TWO64)];
            Has(merged, a, kind, skipBs) <==> Has(r, a, kind, skipBs) || (Covers(last, a) && d.kind == kind)
  {
    hide Bounded, Shape, EndOf, Retyped, Limit, Has, Covers;
    MergeShape(front, last, r, d, skipBs);
    var n := |r| - 1;
    var e := r[n];
    var e' := e.(pages := (e.pages + d.pages) % TWO64);
    assert r == r[..n] + [e] && r[n := e'] == r[..n] + [e'];
    HasSnoc(r[..n], e, a, kind, skipBs);
    HasSnoc(r[..n], e', a, kind, skipBs);
    StillConventional(e, e, skipBs);
    StillConventional(e, e', skipBs);
    CoversJoin(e, last, e', a);
  }

  lemma CoversSame(d: Desc, e: Desc, a: nat)
    requires d.start == e.start && Limit(d) == Limit(e)
    ensures Covers(d, a) <==> Covers(e, a)
  {
  }

  lemma CoversJoin(e: Desc, d: Desc, e': Desc, a: nat)
    requires e.start <= Limit(e) == d.start && Limit(d) == Limit(e') && e'.start == e.start
    ensures Covers(e', a) <==> Covers(e, a) || Covers(d, a)
  {
  }

  lemma HasSnoc(ds: seq<Desc>, d: Desc, a: nat, kind: nat, skipBs: bool)
    ensures Has(ds + [d], a, kind, skipBs)
       <==> Has(ds, a, kind, skipBs) || (Covers(d, a) && Retyped(d, skipBs).kind == kind)
  {
    hide Covers, Retyped;
    var all := ds + [d];
    assert d in all;
    forall x | x in ds ensures x in all { }
  }

  // ---- the whole table

  /** A map as the UEFI Specification asks for it, no descriptor empty or overlapping, in reach of the comparison. */
  ghost predicate GoodMap(ds: seq<Desc>) {
    Disjoint(ds) && Near(ds) && Bounded(ds) && forall d | d in ds :: d.pages > 0
  }

  lemma SortedLayout(ds: seq<Desc>, r: seq<Desc>)
    requires GoodMap(ds) && SortedFrom(ds, r)
    ensures Layout(r)
  {
    hide TotalPages, Near;
    SortedBounded(ds, r);
    forall i | 0 <= i < |r| ensures r[i].pages > 0 { assert r[i] in ds; }
    forall i, j | 0 <= i < j < |r| ensures Limit(r[i]) <= r[j].start {
      assert Apart(r[i], r[j]);
      assert r[j].pages > 0;
    }
  }

  lemma SortedBounded(ds: seq<Desc>, r: seq<Desc>)
    requires Bounded(ds) && SortedFrom(ds, r)
    ensures Bounded(r)
  {
    hide TotalPages, Near, Sorted, Disjoint, Limit;
    forall i | 0 <= i < |r| ensures Limit(r[i]) < TWO64 { assert r[i] in ds; }
  }

  /**
    efi_build_mem_table: for every memmap whose descriptors stay inside the address space, the table keeps
    the type of every address and the number of pages, and with boot services skipped no two of its
    conventional neighbours touch; for a good memmap its entries are in order and apart.
   */
  method BuildMemTable(memmap: seq<Desc>, skipBs: bool) returns (base: array<Desc>, count: nat)
    ensures count < base.Length && base[count].kind == TABLE_END
    ensures Bounded(memmap) ==> forall a, kind :: Has(base[..count], a, kind, skipBs) <==> Has(memmap, a, kind, skipBs)
    ensures Bounded(memmap) ==> TotalPages(base[..count]) == TotalPages(memmap)
    ensures Bounded(memmap) && skipBs ==> NoneAbut(base[..count])
    ensures GoodMap(memmap) ==> Layout(base[..count])
    ensures fresh(base)
  {
    hide SortedFrom, Layout, Bounded, Has, TotalPages, NoneAbut, Coalesce, GoodMap;
    var sorted := Sort(memmap);
    base := new Desc[|sorted| + 1](i => if 0 <= i < |sorted| then sorted[i] else Desc(0, 0, 0, 0, 0));
    assert base[..|sorted|] == sorted;
    count := CoalesceInPlace(base, |sorted|, skipBs);
    if Bounded(memmap) { TableKeeps(memmap, sorted, skipBs); }
    if GoodMap(memmap) {
      SortedLayout(memmap, sorted);
      CoalesceLayout(sorted, skipBs);
    }
  }

  lemma TableKeeps(memmap: seq<Desc>, sorted: seq<Desc>, skipBs: bool)
    requires Bounded(memmap) && SortedFrom(memmap, sorted)
    ensures var r := Coalesce(sorted, skipBs);
            && (forall a, kind :: Has(r, a, kind, skipBs) <==> Has(memmap, a, kind, skipBs))
            && TotalPages(r) == TotalPages(memmap) && (skipBs ==> NoneAbut(r))
  {
    hide Coalesce, Covers, Retyped, Bounded, NoneAbut, TotalPages;
    SortedBounded(memmap, sorted);
    CoalesceShape(sorted, skipBs);
    forall a, kind ensures Has(Coalesce(sorted, skipBs), a, kind, skipBs) <==> Has(memmap, a, kind, skipBs) {
      CoalesceKeepsTypes(sorted, skipBs, a, kind);
    }
  }

  /** Outside these bounds it fails: a descriptor that ends at the top runs on into the first one behind it at zero. */
  lemma WrapJoins()
    ensures var ds := [Desc(CONVENTIONAL, TWO64 - PAGE, 0, 1, 0), Desc(CONVENTIONAL, 0, 0, 1, 0)];
            && Coalesce(ds, true) == [Desc(CONVENTIONAL, TWO64 - PAGE, 0, 2, 0)]
            && Has(ds, 0, CONVENTIONAL, true) && !Has(Coalesce(ds, true), 0, CONVENTIONAL, true)
  {
    var a, b := Desc(CONVENTIONAL, TWO64 - PAGE, 0, 1, 0), Desc(CONVENTIONAL, 0, 0, 1, 0);
    var ds := [a, b];
    assert ds[..1] == [a] && [a][..0] == [];
    assert Coalesce([a], true) == [a];
    assert EndOf(a) == 0;
    assert b in ds && Covers(b, 0);
  }
}
