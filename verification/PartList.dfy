/** Partition lists of cmd/mtdparts.c: sorted insertion, the definition-list parser and printer. */
module PartList {
  import opened Base
  import opened PartText

  // ---- sorted insertion

  ghost predicate Sorted(ps: seq<Part>) {
    forall i, j | 0 <= i < j < |ps| :: ps[i].offset <= ps[j].offset
  }

  /** Where part_sort_add links a new partition: before the first one that does not lie below it. */
  function InsertPos(ps: seq<Part>, offset: nat): (k: nat)
    ensures k <= |ps|
    ensures forall i | 0 <= i < k :: ps[i].offset < offset
    ensures k < |ps| ==> offset <= ps[k].offset
  {
    if ps == [] || offset <= ps[0].offset then 0 else InsertPos(ps[1..], offset) + 1
  }

  /** The list with `p` linked in; a second partition at offset zero is refused. */
  function SortInsert(ps: seq<Part>, p: Part): Option<seq<Part>> {
    var k := InsertPos(ps, p.offset);
    if k < |ps| && p.offset == 0 && ps[k].offset == 0 then None
    else Some(ps[..k] + [p] + ps[k..])
  }

  /** The list walk of part_sort_add. */
  method InsertPart(ps: seq<Part>, p: Part) returns (r: Option<seq<Part>>, k: nat)
    ensures k == InsertPos(ps, p.offset)
    ensures r == SortInsert(ps, p)
  {
    k := 0;
    while k < |ps|
      invariant k <= |ps|
      invariant forall i | 0 <= i < k :: ps[i].offset < p.offset
    {
      if p.offset == ps[k].offset && ps[k].offset == 0 { return None, k; }
      if p.offset <= ps[k].offset { return Some(ps[..k] + [p] + ps[k..]), k; }
      k := k + 1;
    }
    r := Some(ps + [p]);
    assert ps[..k] + [p] + ps[k..] == ps + [p];
  }

  lemma SortInsertSorted(ps: seq<Part>, p: Part)
    requires Sorted(ps)
    ensures var r := SortInsert(ps, p); r.Some? ==> Sorted(r.value) && |r.value| == |ps| + 1
  {
  }

  /** Links the partitions one after the other, as device_parse does. */
  function InsertAll(ps: seq<Part>): Option<seq<Part>> {
    if ps == [] then Some([])
    else
      var r := InsertAll(ps[..|ps| - 1]);
      if r.None? then None else SortInsert(r.value, ps[|ps| - 1])
  }

  /** At most one partition at offset zero, in a sorted list. */
  ghost predicate OneAtZero(ps: seq<Part>) {
    |ps| > 1 ==> ps[1].offset != 0
  }

  /** The index mirrored within the run of partitions that share its offset, in a sorted list. */
  ghost function Mirror(ps: seq<Part>, i: nat): int
    requires i < |ps|
  {
    InsertPos(ps, ps[i].offset) + InsertPos(ps, ps[i].offset + 1) - 1 - i
  }

  lemma MirrorInRun(ps: seq<Part>, i: nat)
    requires Sorted(ps) && i < |ps|
    ensures 0 <= Mirror(ps, i) < |ps| && ps[Mirror(ps, i)].offset == ps[i].offset
  {
    var lo, hi := InsertPos(ps, ps[i].offset), InsertPos(ps, ps[i].offset + 1);
    assert lo <= i < hi;
    var m := lo + hi - 1 - i;
    assert lo <= m < hi;
    assert ps[lo].offset <= ps[m].offset;
  }

  lemma {:induction false} InsertPosAppend(ps: seq<Part>, p: Part, offset: nat)
    ensures InsertPos(ps + [p], offset)
         == if InsertPos(ps, offset) < |ps| || offset <= p.offset then InsertPos(ps, offset) else |ps| + 1
  {
    if ps == [] {
      assert ps + [p] == [p];
    } else {
      assert (ps + [p])[1..] == ps[1..] + [p];
      InsertPosAppend(ps[1..], p, offset);
    }
  }

  lemma InsertPosSame(ps: seq<Part>, qs: seq<Part>, offset: nat)
    requires |ps| == |qs| && forall i | 0 <= i < |ps| :: qs[i].offset == ps[i].offset
    ensures InsertPos(ps, offset) == InsertPos(qs, offset)
  {
  }

  ghost predicate Mirrored(ps: seq<Part>, qs: seq<Part>) {
    |qs| == |ps| && forall i | 0 <= i < |ps| :: 0 <= Mirror(ps, i) < |ps| && qs[i] == ps[Mirror(ps, i)]
  }

  /** Appending a partition that lies behind all others leaves a mirror image alone below its run ... */
  lemma MirrorBelow(ps: seq<Part>, p: Part, i: nat)
    requires Sorted(ps + [p]) && i < |ps|
    ensures ps[i].offset < p.offset ==> Mirror(ps + [p], i) == Mirror(ps, i)
    ensures ps[i].offset == p.offset ==> Mirror(ps + [p], i + 1) == Mirror(ps, i)
  {
    hide InsertPos;
    var rs := ps + [p];
    assert rs[i] == ps[i] && rs[|ps|] == p;
    InsertPosAppend(ps, p, ps[i].offset);
    InsertPosAppend(ps, p, ps[i].offset + 1);
    assert ps[i].offset == p.offset ==> forall j | i <= j < |rs| :: rs[j].offset == p.offset;
  }

  /** ... and makes the new partition the mirror image of the start of its run. */
  lemma MirrorFirst(ps: seq<Part>, p: Part)
    requires Sorted(ps + [p])
    ensures var k := InsertPos(ps, p.offset); (ps + [p])[k].offset == p.offset && Mirror(ps + [p], k) == |ps|
  {
    hide InsertPos;
    var rs, k := ps + [p], InsertPos(ps, p.offset);
    assert rs[|ps|] == p;
    assert k < |ps| ==> ps[k] == rs[k] && rs[k].offset <= rs[|ps|].offset;
    InsertPosAppend(ps, p, p.offset);
    InsertPosAppend(ps, p, p.offset + 1);
    assert forall i | 0 <= i < |ps| :: ps[i] == rs[i] && rs[i].offset <= rs[|ps|].offset;
  }

  /** Linking a sorted list partition by partition reverses every run of equal offsets. */
  lemma {:induction false} InsertAllMirrors(ps: seq<Part>)
    requires Sorted(ps) && OneAtZero(ps)
    ensures InsertAll(ps).Some? && Mirrored(ps, InsertAll(ps).value)
  {
    if ps != [] {
      var front, p := ps[..|ps| - 1], ps[|ps| - 1];
      assert ps == front + [p];
      InsertAllMirrors(front);
      InsertMirrors(front, p, InsertAll(front).value);
    }
  }

  lemma InsertMirrors(ps: seq<Part>, p: Part, qs: seq<Part>)
    requires Sorted(ps + [p]) && OneAtZero(ps + [p]) && Sorted(ps) && Mirrored(ps, qs)
    ensures SortInsert(qs, p).Some? && Mirrored(ps + [p], SortInsert(qs, p).value)
  {
    hide InsertPos;
    hide Sorted, Mirror, OneAtZero;
    MirroredOffsets(ps, qs);
    InsertPosSame(ps, qs, p.offset);
    var k := InsertPos(ps, p.offset);
    ZeroOnlyOnce(ps, p);
    assert SortInsert(qs, p) == Some(qs[..k] + [p] + qs[k..]);
    forall i | 0 <= i <= |ps|
      ensures 0 <= Mirror(ps + [p], i) <= |ps|
      ensures (qs[..k] + [p] + qs[k..])[i] == (ps + [p])[Mirror(ps + [p], i)]
    {
      InsertMirrorsAt(ps, p, qs, i);
    }
  }

  lemma MirroredOffsets(ps: seq<Part>, qs: seq<Part>)
    requires Sorted(ps) && Mirrored(ps, qs)
    ensures forall i | 0 <= i < |ps| :: qs[i].offset == ps[i].offset
  {
    forall i | 0 <= i < |ps| ensures qs[i].offset == ps[i].offset { MirrorInRun(ps, i); }
  }

  lemma ZeroOnlyOnce(ps: seq<Part>, p: Part)
    requires Sorted(ps + [p]) && OneAtZero(ps + [p])
    ensures p.offset == 0 ==> ps == []
  {
    var rs := ps + [p];
    assert rs[|ps|] == p;
    assert |rs| > 1 ==> rs[1].offset <= rs[|ps|].offset;
  }

  lemma InsertMirrorsAt(ps: seq<Part>, p: Part, qs: seq<Part>, i: nat)
    requires Sorted(ps + [p]) && Sorted(ps) && Mirrored(ps, qs) && i <= |ps|
    ensures var k := InsertPos(ps, p.offset);
            && 0 <= Mirror(ps + [p], i) <= |ps|
            && (qs[..k] + [p] + qs[k..])[i] == (ps + [p])[Mirror(ps + [p], i)]
  {
    hide InsertPos, Mirror, Sorted;
    var k := InsertPos(ps, p.offset);
    if i < k {
      MirrorInRun(ps, i);
      MirrorBelow(ps, p, i);
    } else if i == k {
      MirrorFirst(ps, p);
    } else {
      InRun(ps, p, i - 1);
      MirrorInRun(ps, i - 1);
      MirrorBelow(ps, p, i - 1);
      assert (qs[..k] + [p] + qs[k..])[i] == qs[i - 1];
    }
  }

  lemma InRun(ps: seq<Part>, p: Part, i: nat)
    requires Sorted(ps + [p]) && Sorted(ps) && InsertPos(ps, p.offset) <= i < |ps|
    ensures ps[i].offset == p.offset
  {
    hide InsertPos, Sorted;
    var rs, k := ps + [p], InsertPos(ps, p.offset);
    SortedAt(ps, k, i);
    SortedAt(rs, i, |ps|);
    assert rs[i] == ps[i] && rs[|ps|] == p;
  }

  lemma SortedAt(ps: seq<Part>, i: nat, j: nat)
    requires Sorted(ps) && i <= j < |ps|
    ensures ps[i].offset <= ps[j].offset
  {
  }
}
