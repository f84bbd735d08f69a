/** Bad-block-skipping page I/O of cmd/mtd.c. */
module MtdIo {
  import opened Base

  /** A NAND device: bytes per page, pages per erase block, number of pages, and its bad blocks. */
  datatype Nand = Nand(pageSize: nat, perBlock: nat, pages: nat, bad: set<nat>)

  ghost predicate ValidNand(d: Nand) {
    d.pageSize > 0 && d.perBlock > 0
  }

  predicate BadPage(d: Nand, p: nat)
    requires d.perBlock > 0
  {
    p / d.perBlock in d.bad
  }

  // ---- which pages are used

  /** The first loop: block by block forward while the block is bad. */
  function Seek(d: Nand, p: nat): (q: nat)
    requires d.perBlock > 0
    ensures q >= p && (q < d.pages ==> !BadPage(d, q))
    decreases if p < d.pages then d.pages - p else 0
  {
    if p < d.pages && BadPage(d, p) then Seek(d, p + d.perBlock) else p
  }

  /** The pages of the next `n` transfers, bad blocks skipped at their first page; None past the end of the device. */
  function Visit(d: Nand, p: nat, n: nat): Option<seq<nat>>
    requires d.perBlock > 0
    decreases if p < d.pages then d.pages - p else 0
  {
    if n == 0 then Some([])
    else if p >= d.pages then None
    else if p % d.perBlock == 0 && BadPage(d, p) then Visit(d, p + d.perBlock, n)
    else
      var r := Visit(d, p + 1, n - 1);
      if r.None? then None else Some([p] + r.value)
  }

  /** The pages a transfer of `n` pages from page `start` uses. */
  function PagesUsed(d: Nand, start: nat, n: nat): Option<seq<nat>>
    requires d.perBlock > 0
  {
    Visit(d, Seek(d, start), n)
  }

  /** The pages a transfer gets to, whether or not they are enough. */
  function Reached(d: Nand, p: nat, n: nat): seq<nat>
    requires d.perBlock > 0
    decreases if p < d.pages then d.pages - p else 0
  {
    if n == 0 || p >= d.pages then []
    else if p % d.perBlock == 0 && BadPage(d, p) then Reached(d, p + d.perBlock, n)
    else [p] + Reached(d, p + 1, n - 1)
  }

  lemma {:induction false} ReachedIsUsed(d: Nand, p: nat, n: nat)
    requires d.perBlock > 0
    ensures Visit(d, p, n).Some? ==> Visit(d, p, n).value == Reached(d, p, n)
    decreases if p < d.pages then d.pages - p else 0
  {
    hide BadPage;
    if n > 0 && p < d.pages {
      if p % d.perBlock == 0 && BadPage(d, p) {
        ReachedIsUsed(d, p + d.perBlock, n);
      } else {
        ReachedIsUsed(d, p + 1, n - 1);
      }
    }
  }

  ghost predicate Ascending(v: seq<nat>) {
    forall i, j | 0 <= i < j < |v| :: v[i] < v[j]
  }

  lemma NextInBlock(p: nat, b: nat)
    requires b > 0 && (p + 1) % b != 0
    ensures (p + 1) / b == p / b
  {
    var q, r := p / b, p % b;
    assert p + 1 == b * q + (r + 1);
    if r + 1 == b {
      assert p + 1 == b * (q + 1);
      DivIs(p + 1, b, q + 1, 0);
    } else {
      DivIs(p + 1, b, q, r + 1);
    }
  }

  /** From a page that starts a block or lies in a good one: ascending pages on the device, all in good blocks. */
  lemma {:induction false} VisitIsGood(d: Nand, p: nat, n: nat)
    requires d.perBlock > 0 && (p % d.perBlock == 0 || !BadPage(d, p))
    ensures var v := Visit(d, p, n);
            v.Some? ==>
              && |v.value| == n && Ascending(v.value)
              && forall i | 0 <= i < n :: p <= v.value[i] < d.pages && !BadPage(d, v.value[i])
    decreases if p < d.pages then d.pages - p else 0
  {
    hide BadPage;
    if n > 0 && p < d.pages {
      if p % d.perBlock == 0 && BadPage(d, p) {
        BlockStep(p, d.perBlock);
        VisitIsGood(d, p + d.perBlock, n);
      } else {
        if (p + 1) % d.perBlock != 0 { StaysGood(d, p); }
        VisitIsGood(d, p + 1, n - 1);
      }
    }
  }

  lemma BlockStep(p: nat, b: nat)
    requires b > 0 && p % b == 0
    ensures (p + b) % b == 0
  {
    DivIs(p + b, b, p / b + 1, 0);
  }

  lemma StaysGood(d: Nand, p: nat)
    requires d.perBlock > 0 && !BadPage(d, p) && (p + 1) % d.perBlock != 0
    ensures !BadPage(d, p + 1)
  {
    NextInBlock(p, d.perBlock);
  }

  /** Every page touched is on the device and in a good block, and no page is touched twice. */
  lemma PagesUsedAreGood(d: Nand, start: nat, n: nat)
    requires d.perBlock > 0
    ensures var v := PagesUsed(d, start, n);
            v.Some? ==>
              && |v.value| == n && Ascending(v.value)
              && forall i | 0 <= i < n :: v.value[i] < d.pages && !BadPage(d, v.value[i])
  {
    hide BadPage, Visit;
    var p := Seek(d, start);
    if n == 0 || p >= d.pages {
      NoVisit(d, p, n);
    } else {
      VisitIsGood(d, p, n);
    }
  }

  lemma NoVisit(d: Nand, p: nat, n: nat)
    requires d.perBlock > 0 && (n == 0 || p >= d.pages)
    ensures Visit(d, p, n) == if n == 0 then Some([]) else None
  {
  }

  /** The good pages from `p` on. */
  ghost function Good(d: Nand, p: nat): set<nat>
    requires d.perBlock > 0
  {
    set q: nat | p <= q < d.pages && !BadPage(d, q)
  }

  lemma BlockIsBad(d: Nand, p: nat)
    requires d.perBlock > 0 && p % d.perBlock == 0 && BadPage(d, p)
    ensures Good(d, p) == Good(d, p + d.perBlock)
  {
    forall q: nat | p <= q < p + d.perBlock ensures BadPage(d, q) {
      DivIs(q, d.perBlock, p / d.perBlock, q - p);
    }
  }

  ghost predicate Above(s: set<nat>, p: nat) {
    forall q | q in s :: q > p
  }

  lemma NoneGood(d: Nand, p: nat)
    requires d.perBlock > 0 && p >= d.pages
    ensures |Good(d, p)| == 0
  {
    assert Good(d, p) == {};
  }

  lemma OneGood(d: Nand, p: nat)
    requires d.perBlock > 0 && p < d.pages && !BadPage(d, p)
    ensures Good(d, p) == {p} + Good(d, p + 1) && |Good(d, p)| == 1 + |Good(d, p + 1)|
    ensures Above(Good(d, p + 1), p)
  {
    assert Good(d, p) == {p} + Good(d, p + 1);
  }

  /** No page of `first` below the last of `v` is left out. */
  ghost predicate Gapless(v: seq<nat>, first: set<nat>) {
    v != [] ==> forall q | q in first && q <= v[|v| - 1] :: q in v
  }

  lemma NoGap(first: set<nat>)
    ensures Gapless([], first)
  {
  }

  lemma GaplessCons(p: nat, v: seq<nat>, first: set<nat>)
    requires Gapless(v, first) && Above(first, p)
    ensures Gapless([p] + v, {p} + first)
  {
    var w := [p] + v;
    assert w[0] == p;
    forall q | q in {p} + first && q <= w[|w| - 1] ensures q in w {
      if q != p { assert q in v; }
    }
  }

  /** The transfer finds its pages exactly when there are enough good ones, and takes them without a gap. */
  lemma {:induction false} VisitIsFirst(d: Nand, p: nat, n: nat)
    requires d.perBlock > 0 && (p % d.perBlock == 0 || !BadPage(d, p))
    ensures var v := Visit(d, p, n);
            && (v.Some? <==> |Good(d, p)| >= n)
            && (v.Some? ==> Gapless(v.value, Good(d, p)))
    decreases if p < d.pages then d.pages - p else 0
  {
    hide BadPage, Good, Gapless;
    if n == 0 {
      NoGap(Good(d, p));
    } else {
      if p >= d.pages {
        NoneGood(d, p);
      } else if p % d.perBlock == 0 && BadPage(d, p) {
        BlockStep(p, d.perBlock);
        BlockIsBad(d, p);
        VisitIsFirst(d, p + d.perBlock, n);
      } else {
        if (p + 1) % d.perBlock != 0 { StaysGood(d, p); }
        VisitIsFirst(d, p + 1, n - 1);
        OneGood(d, p);
        var rest := Visit(d, p + 1, n - 1);
        if rest.Some? { GaplessCons(p, rest.value, Good(d, p + 1)); }
      }
    }
  }

  /** The first page used lies whole blocks behind the start, every block on the way being bad. */
  lemma {:induction false} SeekIsFirst(d: Nand, p: nat)
    requires d.perBlock > 0
    ensures exists k: nat :: Seek(d, p) == p + k * d.perBlock && AllBad(d, p, k)
    decreases if p < d.pages then d.pages - p else 0
  {
    if p < d.pages && BadPage(d, p) {
      SeekIsFirst(d, p + d.perBlock);
      var k: nat :| Seek(d, p + d.perBlock) == p + d.perBlock + k * d.perBlock && AllBad(d, p + d.perBlock, k);
      forall j: nat | j < k + 1 ensures BadPage(d, p + j * d.perBlock) {
        if j > 0 { assert p + d.perBlock + (j - 1) * d.perBlock == p + j * d.perBlock; }
      }
      assert Seek(d, p) == p + (k + 1) * d.perBlock && AllBad(d, p, k + 1);
    } else {
      assert Seek(d, p) == p + 0 * d.perBlock && AllBad(d, p, 0);
    }
  }

  ghost predicate AllBad(d: Nand, p: nat, k: nat)
    requires d.perBlock > 0
  {
    forall j: nat | j < k :: BadPage(d, p + j * d.perBlock)
  }

  /** The good pages from the first one used on decide whether a transfer can be done, and are used in turn. */
  lemma PagesUsedAreFirst(d: Nand, start: nat, n: nat)
    requires d.perBlock > 0
    ensures var v, first := PagesUsed(d, start, n), Good(d, Seek(d, start));
            && (v.Some? <==> |first| >= n)
            && (v.Some? ==> Gapless(v.value, first))
  {
    hide BadPage, Visit, Gapless;
    var p := Seek(d, start);
    if p >= d.pages {
      NoVisit(d, p, n);
      NoneGood(d, p);
      NoGap(Good(d, p));
    } else {
      VisitIsFirst(d, p, n);
    }
  }

  // ---- data

  function PageOf(d: Nand, buf: seq<Byte>, i: nat): (r: seq<Byte>)
    requires (i + 1) * d.pageSize <= |buf|
    ensures |r| == d.pageSize
  {
    PageBounds(d.pageSize, i);
    buf[i * d.pageSize..(i + 1) * d.pageSize]
  }

  lemma PageBounds(size: nat, i: nat)
    ensures (i + 1) * size == i * size + size
  {
  }

  predicate AllErased(s: seq<Byte>) {
    forall i | 0 <= i < |s| :: s[i] == 255
  }

  /** mtd_oob_write_is_empty, for the data of a page. */
  method IsEmpty(data: seq<Byte>) returns (empty: bool)
    ensures empty == AllErased(data)
  {
    for i := 0 to |data|
      invariant AllErased(data[..i])
    {
      assert data[..i + 1] == data[..i] + [data[i]];
      if data[i] != 255 { return false; }
    }
    assert data[..|data|] == data;
    empty := true;
  }

  /** The pages `ps` are erased. */
  ghost predicate ErasedPages(d: Nand, nand: seq<seq<Byte>>, ps: seq<nat>) {
    forall p | p in ps && p < |nand| :: |nand[p]| == d.pageSize && AllErased(nand[p])
  }

  lemma ErasedPagesAreEqual(x: seq<Byte>, y: seq<Byte>)
    requires AllErased(x) && AllErased(y) && |x| == |y|
    ensures x == y
  {
  }

  /** The device holds the first `n` pages of the buffer in the pages `v`. */
  ghost predicate Holds(d: Nand, nand: seq<seq<Byte>>, v: seq<nat>, buf: seq<Byte>, n: nat) {
    && n <= |v| && n * d.pageSize <= |buf|
    && forall i | 0 <= i < n :: HoldsAt(d, nand, v, buf, i)
  }

  ghost predicate HoldsAt(d: Nand, nand: seq<seq<Byte>>, v: seq<nat>, buf: seq<Byte>, i: nat) {
    i < |v| && v[i] < |nand| && (i + 1) * d.pageSize <= |buf| && nand[v[i]] == PageOf(d, buf, i)
  }

  lemma Distribute(x: nat, y: nat, z: nat)
    ensures (x + y) * z == x * z + y * z >= x * z
  {
  }

  lemma PagesInBuffer(d: Nand, i: nat, n: nat, len: nat)
    requires i < n && len == n * d.pageSize
    ensures (i + 1) * d.pageSize <= len
  {
    var left: nat := n - i - 1;
    assert n == i + 1 + left;
    Distribute(i + 1, left, d.pageSize);
  }

  // ---- the transfer loops

  function Prefixed(done: seq<nat>, v: Option<seq<nat>>): Option<seq<nat>> {
    if v.None? then None else Some(done + v.value)
  }

  /**
    "mtd write" where the pages it gets to are erased, with or without the pages that are all 0xff: the
    pages used hold the buffer afterwards and no other page changes.
   */
  method WriteBuffer(d: Nand, nand: array<seq<Byte>>, start: nat, buf: seq<Byte>, n: nat, writeEmpty: bool)
    returns (ok: bool)
    requires ValidNand(d) && nand.Length == d.pages && |buf| == n * d.pageSize
    requires ErasedPages(d, nand[..], Reached(d, Seek(d, start), n))
    modifies nand
    ensures ok <==> PagesUsed(d, start, n).Some?
    ensures ok ==> Holds(d, nand[..], PagesUsed(d, start, n).value, buf, n)
    ensures forall p | 0 <= p < d.pages && nand[p] != old(nand[p]) :: !BadPage(d, p)
    ensures ok ==> forall p | 0 <= p < d.pages && p !in PagesUsed(d, start, n).value :: nand[p] == old(nand[p])
  {
    hide BadPage, PageOf, AllErased, Progress, Visit, Seek, Reached;
    ghost var used, was := PagesUsed(d, start, n), nand[..];
    ghost var reached := Reached(d, Seek(d, start), n);
    var p := SkipBad(d, start);
    var i := 0;
    ghost var v: seq<nat> := [];
    NoProgress(d, was, buf, p);
    assert used.Some? ==> [] + used.value == used.value;
    while i < n
      invariant i <= n && used == Prefixed(v, Visit(d, p, n - i))
      invariant p < d.pages ==> p % d.perBlock == 0 || !BadPage(d, p)
      invariant Progress(d, nand[..], was, v, buf, i, p) && reached == v + Reached(d, p, n - i)
      decreases if p < d.pages then d.pages - p else 0, n - i
    {
      VisitStep(d, p, n - i, v);
      ReachedStep(d, p, n - i, v);
      if p >= d.pages {
        Framed(d, nand[..], was, v, buf, i, p);
        return false;
      }
      if p % d.perBlock == 0 && BadPage(d, p) {
        BlockStep(p, d.perBlock);
        ProgressSkips(d, nand[..], was, v, buf, i, p);
        p := p + d.perBlock;
      } else {
        PagesInBuffer(d, i, n, |buf|);
        StillErased(d, nand[..], was, v, buf, i, p);
        var data := PageOf(d, buf, i);
        var empty := IsEmpty(data);
        ghost var before := nand[..];
        if writeEmpty || !empty {
          nand[p] := data;
        } else {
          ErasedPagesAreEqual(nand[p], data);
        }
        WroteOne(d, before, nand[..], was, v, buf, i, p);
        v := v + [p];
        if (p + 1) % d.perBlock != 0 { StaysGood(d, p); }
        p, i := p + 1, i + 1;
      }
    }
    NoVisit(d, p, 0);
    assert v + [] == v;
    Framed(d, nand[..], was, v, buf, i, p);
    ok := true;
  }

  /** `i` pages are written, to the pages `v`; everything from page `p` on and everything else is as it was. */
  ghost predicate Progress(d: Nand, nand: seq<seq<Byte>>, was: seq<seq<Byte>>, v: seq<nat>, buf: seq<Byte>,
                           i: nat, p: nat) {
    && d.perBlock > 0 && |v| == i && |nand| == |was| == d.pages && Holds(d, nand, v, buf, i)
    && (forall k | 0 <= k < i :: v[k] < p && v[k] < d.pages && !BadPage(d, v[k]))
    && (forall q | 0 <= q < d.pages && q !in v :: nand[q] == was[q])
  }

  lemma NoProgress(d: Nand, was: seq<seq<Byte>>, buf: seq<Byte>, p: nat)
    requires d.perBlock > 0 && |was| == d.pages
    ensures Progress(d, was, was, [], buf, 0, p)
  {
  }

  lemma Framed(d: Nand, nand: seq<seq<Byte>>, was: seq<seq<Byte>>, v: seq<nat>, buf: seq<Byte>, i: nat, p: nat)
    requires Progress(d, nand, was, v, buf, i, p)
    ensures Holds(d, nand, v, buf, i) && |nand| == |was| == d.pages
    ensures forall q | 0 <= q < d.pages && nand[q] != was[q] :: !BadPage(d, q)
    ensures forall q | 0 <= q < d.pages && q !in v :: nand[q] == was[q]
  {
    hide BadPage, Holds;
  }

  lemma ProgressSkips(d: Nand, nand: seq<seq<Byte>>, was: seq<seq<Byte>>, v: seq<nat>, buf: seq<Byte>, i: nat, p: nat)
    requires Progress(d, nand, was, v, buf, i, p)
    ensures Progress(d, nand, was, v, buf, i, p + d.perBlock)
  {
    hide BadPage, Holds;
  }

  lemma StillErased(d: Nand, nand: seq<seq<Byte>>, was: seq<seq<Byte>>, v: seq<nat>, buf: seq<Byte>, i: nat, p: nat)
    requires Progress(d, nand, was, v, buf, i, p) && p < d.pages
    ensures |nand| == |was| == d.pages && nand[p] == was[p]
  {
    hide BadPage, Holds;
  }

  lemma WroteOne(d: Nand, before: seq<seq<Byte>>, after: seq<seq<Byte>>, was: seq<seq<Byte>>, v: seq<nat>,
                 buf: seq<Byte>, i: nat, p: nat)
    requires Progress(d, before, was, v, buf, i, p) && |before| == |after| && p < d.pages && !BadPage(d, p)
    requires (i + 1) * d.pageSize <= |buf| && after[p] == PageOf(d, buf, i)
    requires forall q | 0 <= q < |before| && q != p :: after[q] == before[q]
    ensures Progress(d, after, was, v + [p], buf, i + 1, p + 1)
  {
    hide BadPage, Holds, PageOf;
    HoldsMore(d, before, after, v, buf, i, p);
    assert forall q :: q in v + [p] <==> q in v || q == p;
  }

  /** One turn of the loop, in terms of the pages still to come. */
  lemma VisitStep(d: Nand, p: nat, n: nat, v: seq<nat>)
    requires d.perBlock > 0 && n > 0
    ensures Prefixed(v, Visit(d, p, n))
         == (if p >= d.pages then None
             else if p % d.perBlock == 0 && BadPage(d, p) then Prefixed(v, Visit(d, p + d.perBlock, n))
             else Prefixed(v + [p], Visit(d, p + 1, n - 1)))
  {
    hide BadPage;
    var rest := Visit(d, p + 1, n - 1);
    assert rest.Some? ==> v + ([p] + rest.value) == v + [p] + rest.value;
  }

  lemma ReachedStep(d: Nand, p: nat, n: nat, v: seq<nat>)
    requires d.perBlock > 0 && n > 0
    ensures p < d.pages ==>
              if p % d.perBlock == 0 && BadPage(d, p) then Reached(d, p, n) == Reached(d, p + d.perBlock, n)
              else p in v + Reached(d, p, n) && v + Reached(d, p, n) == v + [p] + Reached(d, p + 1, n - 1)
  {
    hide BadPage;
  }

  lemma HoldsNothing(d: Nand, nand: seq<seq<Byte>>, v: seq<nat>, buf: seq<Byte>)
    ensures Holds(d, nand, v, buf, 0)
  {
  }

  lemma HoldsMore(d: Nand, before: seq<seq<Byte>>, after: seq<seq<Byte>>, v: seq<nat>, buf: seq<Byte>, i: nat, p: nat)
    requires Holds(d, before, v, buf, i) && |v| == i && |before| == |after| && p < |after|
    requires (i + 1) * d.pageSize <= |buf| && after[p] == PageOf(d, buf, i)
    requires forall k | 0 <= k < i :: v[k] < p
    requires forall q | 0 <= q < |before| && q != p :: after[q] == before[q]
    ensures Holds(d, after, v + [p], buf, i + 1)
  {
    hide PageOf;
    var w := v + [p];
    forall k | 0 <= k < i + 1 ensures HoldsAt(d, after, w, buf, k) {
      if k < i { assert HoldsAt(d, before, v, buf, k); }
    }
  }

  method SkipBad(d: Nand, start: nat) returns (p: nat)
    requires ValidNand(d)
    ensures p == Seek(d, start)
  {
    p := start;
    while p < d.pages && BadPage(d, p)
      invariant Seek(d, start) == Seek(d, p)
      decreases if p < d.pages then d.pages - p else 0
    {
      p := p + d.perBlock;
    }
  }

  /** "mtd read" over the same pages. */
  method ReadBuffer(d: Nand, nand: array<seq<Byte>>, start: nat, n: nat) returns (ok: bool, buf: seq<Byte>)
    requires ValidNand(d) && nand.Length == d.pages && forall p | 0 <= p < d.pages :: |nand[p]| == d.pageSize
    ensures ok <==> PagesUsed(d, start, n).Some?
    ensures ok ==> |buf| == n * d.pageSize && Holds(d, nand[..], PagesUsed(d, start, n).value, buf, n)
  {
    hide BadPage, Holds, Visit, Seek;
    ghost var used := PagesUsed(d, start, n);
    var p := SkipBad(d, start);
    var i := 0;
    buf := [];
    ghost var v: seq<nat> := [];
    HoldsNothing(d, nand[..], v, buf);
    assert used.Some? ==> [] + used.value == used.value;
    while i < n
      invariant i <= n && |v| == i && used == Prefixed(v, Visit(d, p, n - i))
      invariant |buf| == i * d.pageSize && Holds(d, nand[..], v, buf, i)
      decreases if p < d.pages then d.pages - p else 0, n - i
    {
      VisitStep(d, p, n - i, v);
      if p >= d.pages { return false, buf; }
      if p % d.perBlock == 0 && BadPage(d, p) {
        p := p + d.perBlock;
      } else {
        PageBounds(d.pageSize, i);
        HoldsLonger(d, nand[..], v, buf, i, p);
        buf, v := buf + nand[p], v + [p];
        p, i := p + 1, i + 1;
      }
    }
    NoVisit(d, p, 0);
    assert v + [] == v;
    ok := true;
  }

  lemma HoldsLonger(d: Nand, nand: seq<seq<Byte>>, v: seq<nat>, buf: seq<Byte>, i: nat, p: nat)
    requires Holds(d, nand, v, buf, i) && |v| == i && |buf| == i * d.pageSize && p < |nand| && |nand[p]| == d.pageSize
    ensures Holds(d, nand, v + [p], buf + nand[p], i + 1)
  {
    PageBounds(d.pageSize, i);
    var w, more := v + [p], buf + nand[p];
    forall k | 0 <= k < i + 1 ensures HoldsAt(d, nand, w, more, k) {
      PagesInBuffer(d, k, i + 1, |more|);
      PageBounds(d.pageSize, k);
      if k < i {
        assert HoldsAt(d, nand, v, buf, k);
        PagesInBuffer(d, k, i, |buf|);
        assert PageOf(d, more, k) == PageOf(d, buf, k);
      } else {
        assert PageOf(d, more, k) == nand[p];
      }
    }
  }

  /** A buffer is determined by its pages. */
  lemma {:induction false} PagesDetermine(d: Nand, nand: seq<seq<Byte>>, v: seq<nat>, x: seq<Byte>, y: seq<Byte>,
                                          n: nat)
    requires Holds(d, nand, v, x, n) && Holds(d, nand, v, y, n)
    ensures x[..n * d.pageSize] == y[..n * d.pageSize]
  {
    if n > 0 {
      var k := n - 1;
      PageBounds(d.pageSize, k);
      PagesDetermine(d, nand, v, x, y, k);
      assert HoldsAt(d, nand, v, x, k) && HoldsAt(d, nand, v, y, k);
      assert x[..n * d.pageSize] == x[..k * d.pageSize] + PageOf(d, x, k);
      assert y[..n * d.pageSize] == y[..k * d.pageSize] + PageOf(d, y, k);
    }
  }

  /** Writing to an erased device and reading from the same offset gives the buffer back, whatever blocks are bad. */
  method WriteThenRead(d: Nand, nand: array<seq<Byte>>, start: nat, buf: seq<Byte>, n: nat, writeEmpty: bool)
    returns (ok: bool, back: seq<Byte>)
    requires ValidNand(d) && nand.Length == d.pages && |buf| == n * d.pageSize
    requires forall p | 0 <= p < d.pages :: |nand[p]| == d.pageSize
    requires ErasedPages(d, nand[..], Reached(d, Seek(d, start), n))
    modifies nand
    ensures ok <==> PagesUsed(d, start, n).Some?
    ensures ok ==> back == buf
  {
    hide PageOf, AllErased, PagesUsed, Holds;
    ok := WriteBuffer(d, nand, start, buf, n, writeEmpty);
    back := [];
    if ok {
      ghost var v := PagesUsed(d, start, n).value;
      PagesUsedAreGood(d, start, n);
      SizesKept(d, nand[..], old(nand[..]), v, buf, n);
      var ok2;
      ok2, back := ReadBuffer(d, nand, start, n);
      PagesDetermine(d, nand[..], v, buf, back, n);
      assert buf[..n * d.pageSize] == buf && back[..n * d.pageSize] == back;
    }
  }

  lemma SizesKept(d: Nand, nand: seq<seq<Byte>>, was: seq<seq<Byte>>, v: seq<nat>, buf: seq<Byte>, n: nat)
    requires Holds(d, nand, v, buf, n) && |v| == n && |nand| == |was|
    requires forall p | 0 <= p < |was| :: |was[p]| == d.pageSize
    requires forall p | 0 <= p < |nand| && p !in v :: nand[p] == was[p]
    ensures forall p | 0 <= p < |nand| :: |nand[p]| == d.pageSize
  {
    forall p | 0 <= p < |nand| ensures |nand[p]| == d.pageSize {
      if p in v {
        var i :| 0 <= i < |v| && v[i] == p;
        assert HoldsAt(d, nand, v, buf, i);
      }
    }
  }
}
