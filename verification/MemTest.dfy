/**
 * The RAM tests of `cmd/mem.c` on a memory whose only fault is its wiring: word offset `o` of the
 * range reaches the cell `reach[o]`, and several offsets may reach the same one.
 */
module MemTest {
  import opened Base

  datatype Width = Bits32 | Bits64 {
    function Modulus(): (m: nat)
      ensures m > 0
    {
      if Bits32? then 0x1_0000_0000 else 0x1_0000_0000_0000_0000
    }

    function Bits(): nat { if Bits32? then 32 else 64 }

    function Bytes(): (b: nat)
      ensures b > 0
    {
      if Bits32? then 4 else 8
    }

    function Not(x: nat): nat
      requires x < Modulus()
    {
      Modulus() - 1 - x
    }

    function Minus(x: nat): nat { (0 - x) % Modulus() }
  }

  /** The number of whole words from `start` to `end`, in unsigned arithmetic. */
  function Words(w: Width, start: nat, end: nat): nat {
    (end - start) % w.Modulus() / w.Bytes()
  }

  lemma FewWords(w: Width, start: nat, end: nat)
    ensures Words(w, start, end) * 4 <= w.Modulus()
  {
    if w.Bits32? {
      assert (end - start) % 0x1_0000_0000 / 4 * 4 < 0x1_0000_0000;
    } else {
      assert (end - start) % 0x1_0000_0000_0000_0000 / 8 * 8 < 0x1_0000_0000_0000_0000;
    }
  }

  ghost predicate Wired(reach: seq<nat>, n: nat, cells: nat) {
    n <= |reach| && forall i | 0 <= i < |reach| :: reach[i] < cells
  }

  /** The cells that the offsets from `i` up to `n` reach. */
  ghost function CellsFrom(reach: seq<nat>, i: nat, n: nat): set<nat>
    requires n <= |reach|
  {
    set k | i <= k < n :: reach[k]
  }

  ghost predicate Injective(reach: seq<nat>, n: nat)
    requires n <= |reach|
  {
    forall i, j | 0 <= i < j < n :: reach[i] != reach[j]
  }

  lemma CellsStep(reach: seq<nat>, i: nat, n: nat)
    requires i < n <= |reach|
    ensures CellsFrom(reach, i, n) == {reach[i]} + CellsFrom(reach, i + 1, n)
    ensures |CellsFrom(reach, i, n)|
         == |CellsFrom(reach, i + 1, n)| + if reach[i] in CellsFrom(reach, i + 1, n) then 0 else 1
  {
    var rest := CellsFrom(reach, i + 1, n);
    assert CellsFrom(reach, i, n) == {reach[i]} + rest;
    if reach[i] in rest { assert {reach[i]} + rest == rest; }
  }

  /** No word is lost to another exactly when there are as many cells as offsets. */
  lemma {:induction false} AllDistinct(reach: seq<nat>, i: nat, n: nat)
    requires i <= n <= |reach|
    ensures |CellsFrom(reach, i, n)| <= n - i
    ensures |CellsFrom(reach, i, n)| == n - i <==> forall j, k | i <= j < k < n :: reach[j] != reach[k]
    decreases n - i
  {
    if i == n {
      assert CellsFrom(reach, i, n) == {};
    } else {
      AllDistinct(reach, i + 1, n);
      CellsStep(reach, i, n);
      if reach[i] !in CellsFrom(reach, i + 1, n) {
        assert forall k | i < k < n :: reach[k] != reach[i];
      } else {
        var k :| i + 1 <= k < n && reach[k] == reach[i];
      }
    }
  }

  // ---- the quick test ----

  /** The word that the quick test puts at offset `i`. */
  function Value(w: Width, pattern: nat, down: bool, i: nat): nat {
    (if down then pattern - i else pattern + i) % w.Modulus()
  }

  lemma ValuesDiffer(w: Width, pattern: nat, down: bool, i: nat, j: nat)
    requires i < j && j - i < w.Modulus()
    ensures Value(w, pattern, down, i) != Value(w, pattern, down, j)
  {
    var a, b := if down then pattern - i else pattern + i, if down then pattern - j else pattern + j;
    if w.Bits32? { Apart32(a, b); } else { Apart64(a, b); }
  }

  lemma Apart32(a: int, b: int)
    requires a != b && -0x1_0000_0000 < a - b < 0x1_0000_0000
    ensures a % 0x1_0000_0000 != b % 0x1_0000_0000
  {
  }

  lemma Apart64(a: int, b: int)
    requires a != b && -0x1_0000_0000_0000_0000 < a - b < 0x1_0000_0000_0000_0000
    ensures a % 0x1_0000_0000_0000_0000 != b % 0x1_0000_0000_0000_0000
  {
  }

  lemma NextValue(w: Width, pattern: nat, down: bool, i: nat)
    ensures Add(w, Value(w, pattern, down, i), Incr(w, down)) == Value(w, pattern, down, i + 1)
  {
    var a := if down then pattern - i else pattern + i;
    if w.Bits32? { Step32(a); } else { Step64(a); }
  }

  lemma Step32(a: int)
    ensures (a % 0x1_0000_0000 + 1) % 0x1_0000_0000 == (a + 1) % 0x1_0000_0000
    ensures (a % 0x1_0000_0000 + 0xffff_ffff) % 0x1_0000_0000 == (a - 1) % 0x1_0000_0000
  {
  }

  lemma Step64(a: int)
    ensures (a % 0x1_0000_0000_0000_0000 + 1) % 0x1_0000_0000_0000_0000 == (a + 1) % 0x1_0000_0000_0000_0000
    ensures (a % 0x1_0000_0000_0000_0000 + 0xffff_ffff_ffff_ffff) % 0x1_0000_0000_0000_0000
         == (a - 1) % 0x1_0000_0000_0000_0000
  {
  }

  lemma ValueFirst(w: Width, pattern: nat, down: bool)
    requires pattern < w.Modulus()
    ensures Value(w, pattern, down, 0) == pattern
  {
  }

  /** Each of the first `i` offsets' cells holds the word of the last of them that reaches it, `owner`. */
  ghost predicate Owned(reach: seq<nat>, cells: seq<nat>, owner: map<nat, nat>, i: nat, values: nat -> nat)
    requires Wired(reach, i, |cells|)
  {
    && (forall k | 0 <= k < i :: reach[k] in owner && k <= owner[reach[k]])
    && (forall c | c in owner :: owner[c] < i && reach[owner[c]] == c && cells[c] == values(owner[c]))
  }

  lemma OwnedStep(reach: seq<nat>, cells: seq<nat>, owner: map<nat, nat>, i: nat, values: nat -> nat)
    requires Wired(reach, i + 1, |cells|) && Owned(reach, cells, owner, i, values)
    ensures Owned(reach, cells[reach[i] := values(i)], owner[reach[i] := i], i + 1, values)
  {
  }

  /** Reading offset `k` back shows another word exactly when a later offset reaches the same cell. */
  lemma OwnerDecides(reach: seq<nat>, cells: seq<nat>, owner: map<nat, nat>, n: nat, values: nat -> nat, k: nat)
    requires Wired(reach, n, |cells|) && Owned(reach, cells, owner, n, values) && k < n
    requires forall j | k < j < n :: values(j) != values(k)
    ensures cells[reach[k]] != values(k) <==> reach[k] in CellsFrom(reach, k + 1, n)
  {
    var last := owner[reach[k]];
    if last == k {
      forall j | k < j < n ensures reach[j] != reach[k] {}
    } else {
      assert k + 1 <= last < n && reach[last] == reach[k];
    }
  }

  /** The words that the quick test writes and expects. */
  ghost function Values(w: Width, pattern: nat, down: bool): nat -> nat {
    (i: nat) => Value(w, pattern, down, i)
  }

  function Add(w: Width, x: nat, y: nat): nat { (x + y) % w.Modulus() }

  function Incr(w: Width, down: bool): nat {
    if down then w.Minus(1) else 1
  }

  lemma AllDiffer(w: Width, pattern: nat, down: bool, i: nat, n: nat)
    requires n <= w.Modulus()
    ensures Values(w, pattern, down)(i) == Value(w, pattern, down, i)
    ensures forall j | i < j < n :: Values(w, pattern, down)(j) != Values(w, pattern, down)(i)
  {
    forall j | i < j < n ensures Values(w, pattern, down)(j) != Values(w, pattern, down)(i) {
      ValuesDiffer(w, pattern, down, i, j);
    }
  }

  lemma ReadsWrong(w: Width, pattern: nat, down: bool, reach: seq<nat>, cells: seq<nat>, owner: map<nat, nat>,
                   i: nat, n: nat)
    requires Wired(reach, n, |cells|) && n <= w.Modulus() && i < n
    requires Owned(reach, cells, owner, n, Values(w, pattern, down))
    ensures |CellsFrom(reach, i, n)|
         == |CellsFrom(reach, i + 1, n)| + if cells[reach[i]] != Value(w, pattern, down, i) then 0 else 1
  {
    hide Value, Values, Owned, CellsFrom;
    AllDiffer(w, pattern, down, i, n);
    OwnerDecides(reach, cells, owner, n, Values(w, pattern, down), i);
    CellsStep(reach, i, n);
  }

  lemma NoCells(reach: seq<nat>, n: nat)
    requires n <= |reach|
    ensures |CellsFrom(reach, n, n)| == 0
  {
    assert CellsFrom(reach, n, n) == {};
  }

  method QuickFill(w: Width, cells: array<nat>, reach: seq<nat>, n: nat, pattern: nat, down: bool)
    returns (ghost owner: map<nat, nat>)
    requires pattern < w.Modulus() && Wired(reach, n, cells.Length)
    modifies cells
    ensures Owned(reach, cells[..], owner, n, Values(w, pattern, down))
    ensures forall c | 0 <= c < cells.Length && c !in CellsFrom(reach, 0, n) :: cells[c] == old(cells[c])
  {
    ghost var values := Values(w, pattern, down);
    ValueFirst(w, pattern, down);
    owner := map[];
    var val := pattern;
    for i := 0 to n
      invariant val == Value(w, pattern, down, i) && Owned(reach, cells[..], owner, i, values)
      invariant forall c | 0 <= c < cells.Length && c !in CellsFrom(reach, 0, n) :: cells[c] == old(cells[c])
    {
      hide Value, Owned, Incr, Add;
      assert reach[i] in CellsFrom(reach, 0, n);
      OwnedStep(reach, cells[..], owner, i, values);
      NextValue(w, pattern, down, i);
      cells[reach[i]] := val;
      owner := owner[reach[i] := i];
      val := Add(w, val, Incr(w, down));
    }
  }

  method QuickRead(w: Width, cells: array<nat>, reach: seq<nat>, n: nat, pattern: nat, down: bool,
                   ghost owner: map<nat, nat>)
    returns (errs: nat)
    requires pattern < w.Modulus() && Wired(reach, n, cells.Length) && n <= w.Modulus()
    requires Owned(reach, cells[..], owner, n, Values(w, pattern, down))
    ensures errs == n - |CellsFrom(reach, 0, n)|
  {
    ValueFirst(w, pattern, down);
    var val := pattern;
    errs := 0;
    NoCells(reach, n);
    hide Value, Values, Owned, Incr, Add, CellsFrom;
    for i := 0 to n
      invariant val == Value(w, pattern, down, i)
      invariant errs == i - (|CellsFrom(reach, 0, n)| - |CellsFrom(reach, i, n)|)
    {
      ReadsWrong(w, pattern, down, reach, cells[..], owner, i, n);
      NextValue(w, pattern, down, i);
      if cells[reach[i]] != val { errs := errs + 1; }
      val := Add(w, val, Incr(w, down));
    }
  }

  /** The word the test starts from: odd iterations turn the pattern round. */
  function FirstWord(w: Width, pattern: nat, iteration: int): (r: nat)
    requires pattern < w.Modulus()
    ensures r < w.Modulus()
  {
    if iteration % 2 == 0 then pattern
    else if pattern / 0x8000_0000 % 2 == 1 then w.Minus(pattern)
    else w.Not(pattern)
  }

  /** At every offset, an odd iteration writes the complement, or the negative, of what an even one writes. */
  lemma OddTurnsRound(w: Width, pattern: nat, i: nat)
    requires pattern < w.Modulus()
    ensures var even, odd := Value(w, FirstWord(w, pattern, 0), false, i), Value(w, FirstWord(w, pattern, 1), true, i);
            odd == if pattern / 0x8000_0000 % 2 == 1 then w.Minus(even) else w.Not(even)
  {
    if w.Bits32? { TurnRound32(pattern, i); } else { TurnRound64(pattern, i); }
  }

  lemma TurnRound32(p: int, i: int)
    ensures ((0 - p) % 0x1_0000_0000 - i) % 0x1_0000_0000 == (0 - (p + i) % 0x1_0000_0000) % 0x1_0000_0000
    ensures (0xffff_ffff - p - i) % 0x1_0000_0000 == 0xffff_ffff - (p + i) % 0x1_0000_0000
  {
  }

  lemma TurnRound64(p: int, i: int)
    ensures ((0 - p) % 0x1_0000_0000_0000_0000 - i) % 0x1_0000_0000_0000_0000
         == (0 - (p + i) % 0x1_0000_0000_0000_0000) % 0x1_0000_0000_0000_0000
    ensures (0xffff_ffff_ffff_ffff - p - i) % 0x1_0000_0000_0000_0000
         == 0xffff_ffff_ffff_ffff - (p + i) % 0x1_0000_0000_0000_0000
  {
  }

  lemma LastKeeps(reach: seq<nat>, cells: seq<nat>, owner: map<nat, nat>, n: nat, values: nat -> nat, k: nat)
    requires Wired(reach, n, |cells|) && Owned(reach, cells, owner, n, values)
    requires k < n && reach[k] !in CellsFrom(reach, k + 1, n)
    ensures cells[reach[k]] == values(k)
  {
    var last := owner[reach[k]];
    assert k <= last < n && reach[last] == reach[k];
  }

  /** The cells hold what the test wrote, each the word of the last offset that reaches it. */
  ghost predicate Filled(w: Width, reach: seq<nat>, n: nat, cells: seq<nat>, first: nat, down: bool)
    requires Wired(reach, n, |cells|)
  {
    forall k | 0 <= k < n && reach[k] !in CellsFrom(reach, k + 1, n) :: cells[reach[k]] == Value(w, first, down, k)
  }

  lemma OwnedIsFilled(w: Width, reach: seq<nat>, n: nat, cells: seq<nat>, first: nat, down: bool, owner: map<nat, nat>)
    requires Wired(reach, n, |cells|) && Owned(reach, cells, owner, n, Values(w, first, down))
    ensures Filled(w, reach, n, cells, first, down)
  {
    forall k | 0 <= k < n && reach[k] !in CellsFrom(reach, k + 1, n)
      ensures cells[reach[k]] == Value(w, first, down, k)
    {
      LastKeeps(reach, cells, owner, n, Values(w, first, down), k);
    }
  }

  method QuickTest(w: Width, cells: array<nat>, reach: seq<nat>, start: nat, end: nat, pattern: nat, iteration: int)
    returns (errs: nat)
    requires pattern < w.Modulus() && Wired(reach, Words(w, start, end), cells.Length)
    modifies cells
    ensures errs == Words(w, start, end) - |CellsFrom(reach, 0, Words(w, start, end))|
    ensures Filled(w, reach, Words(w, start, end), cells[..], FirstWord(w, pattern, iteration), iteration % 2 == 1)
    ensures forall c | 0 <= c < cells.Length && c !in CellsFrom(reach, 0, Words(w, start, end)) ::
              cells[c] == old(cells[c])
  {
    var first, down := FirstWord(w, pattern, iteration), iteration % 2 == 1;
    var n := Words(w, start, end);
    FewWords(w, start, end);
    hide Words, FirstWord, Filled, Owned, CellsFrom, Value, Values;
    ghost var owner := QuickFill(w, cells, reach, n, first, down);
    OwnedIsFilled(w, reach, n, cells[..], first, down, owner);
    errs := QuickRead(w, cells, reach, n, first, down, owner);
  }

  // ---- the alternative test: data lines ----

  function Pow2(e: nat): (r: nat)
    ensures r > 0
  {
    if e == 0 then 1 else 2 * Pow2(e - 1)
  }

  const BIT_PATTERNS: seq<nat> := [0x1, 0x3, 0x7, 0xf, 0x5, 0x15, 0x55, 0xaaaa_aaaa]

  /** The word `b` shifted left `k` times. */
  ghost function Shifted(w: Width, b: nat, k: nat): (r: nat)
    ensures r < w.Modulus()
  {
    b * Pow2(k) % w.Modulus()
  }

  lemma NotShifted(w: Width, b: nat)
    requires b < w.Modulus()
    ensures Shifted(w, b, 0) == b
  {
    assert b * Pow2(0) == b;
  }

  /** A word shifted left as often as it has bits is zero. */
  lemma ShiftedOut(w: Width, b: nat)
    ensures Shifted(w, b, w.Bits()) == 0
  {
    Pow2Known();
    hide Pow2;
    if w.Bits32? {
      assert b * 0x1_0000_0000 % 0x1_0000_0000 == 0;
    } else {
      assert b * 0x1_0000_0000_0000_0000 % 0x1_0000_0000_0000_0000 == 0;
    }
  }

  lemma Pow2Known()
    ensures Pow2(32) == 0x1_0000_0000 && Pow2(64) == 0x1_0000_0000_0000_0000
  {
    assert Pow2(8) == 0x100;
    assert Pow2(16) == 0x1_0000;
    assert Pow2(24) == 0x100_0000;
    assert Pow2(32) == 0x1_0000_0000;
    assert Pow2(40) == 0x100_0000_0000;
    assert Pow2(48) == 0x1_0000_0000_0000;
    assert Pow2(56) == 0x100_0000_0000_0000;
  }

  lemma Doubled(w: Width, b: nat, k: nat)
    ensures Add(w, Shifted(w, b, k), Shifted(w, b, k)) == Shifted(w, b, k + 1)
  {
    var x := b * Pow2(k);
    assert b * Pow2(k + 1) == 2 * x;
    Twice(w, x);
  }

  lemma Twice(w: Width, x: nat)
    ensures (x % w.Modulus() + x % w.Modulus()) % w.Modulus() == 2 * x % w.Modulus()
  {
    TwiceMod(x, w.Modulus(), x / w.Modulus(), x % w.Modulus());
  }

  lemma TwiceMod(x: nat, m: nat, q: nat, r: nat)
    requires m > 0 && x == m * q + r && r < m
    ensures (r + r) % m == 2 * x % m
  {
    assert 2 * x == m * (2 * q) + (r + r);
    if r + r < m {
      DivIs(2 * x, m, 2 * q, r + r);
      DivIs(r + r, m, 0, r + r);
    } else {
      assert m * (2 * q + 1) == m * (2 * q) + m;
      DivIs(2 * x, m, 2 * q + 1, r + r - m);
      DivIs(r + r, m, 1, r + r - m);
    }
  }

  /** One bit pattern, written to the cell `first` with its complement parked in the cell `scratch`, and back. */
  method DataLine(w: Width, cells: array<nat>, first: nat, scratch: nat, bits: nat) returns (errs: nat)
    requires 0 < bits < w.Modulus() && first < cells.Length && scratch < cells.Length
    modifies cells
    ensures errs > 0 <==> first == scratch
  {
    errs := 0;
    var val := bits;
    ghost var k := 0;
    NotShifted(w, bits);
    ShiftedOut(w, bits);
    hide Shifted, Add;
    while val != 0
      invariant k <= w.Bits() && val == Shifted(w, bits, k)
      invariant errs > 0 <==> first == scratch && k > 0
      decreases w.Bits() - k
    {
      cells[first] := val;
      cells[scratch] := w.Not(val);
      if cells[first] != val { errs := errs + 1; }
      cells[first] := w.Not(val);
      cells[scratch] := val;
      if cells[first] != w.Not(val) { errs := errs + 1; }
      Doubled(w, bits, k);
      val, k := Add(w, val, val), k + 1;
    }
  }

  method DataLines(w: Width, cells: array<nat>, first: nat, scratch: nat) returns (errs: nat)
    requires first < cells.Length && scratch < cells.Length
    modifies cells
    ensures errs > 0 <==> first == scratch
  {
    errs := 0;
    for j := 0 to |BIT_PATTERNS|
      invariant errs > 0 <==> first == scratch && j > 0
    {
      var more := DataLine(w, cells, first, scratch, BIT_PATTERNS[j]);
      errs := errs + more;
    }
  }

  // ---- the alternative test: address lines ----

  const PATTERN: nat := 0xaaaa_aaaa
  const ANTI_PATTERN: nat := 0x5555_5555

  /** The offsets that a loop doubling `offset` below `n` visits. */
  function Doublings(offset: nat, n: nat): (ps: seq<nat>)
    requires offset > 0
    ensures forall k | 0 <= k < |ps| :: offset <= ps[k] < n
    decreases n - offset
  {
    if offset >= n then [] else [offset] + Doublings(2 * offset, n)
  }

  /** `k` is a power of two with an exponent of at least `e`. */
  ghost predicate PowerFrom(e: nat, k: nat) { exists f: nat :: e <= f && k == Pow2(f) }

  lemma PowerSplits(e: nat, k: nat)
    ensures PowerFrom(e, k) <==> k == Pow2(e) || PowerFrom(e + 1, k)
  {
    if PowerFrom(e, k) {
      var f: nat :| e <= f && k == Pow2(f);
      assert f == e || (e + 1 <= f && k == Pow2(f));
    }
  }

  lemma {:induction false} DoublingsFrom(e: nat, n: nat, k: nat)
    ensures k in Doublings(Pow2(e), n) <==> k < n && PowerFrom(e, k)
    decreases n - Pow2(e)
  {
    if Pow2(e) >= n {
      forall f: nat | e <= f ensures Pow2(f) >= n { Pow2Grows(e, f); }
    } else {
      assert Pow2(e + 1) == 2 * Pow2(e);
      DoublingsFrom(e + 1, n, k);
      assert k in Doublings(Pow2(e), n) <==> k == Pow2(e) || k in Doublings(Pow2(e + 1), n);
      assert PowerFrom(e, k) <==> k == Pow2(e) || PowerFrom(e + 1, k) by { PowerSplits(e, k); }
    }
  }

  lemma {:induction false} Pow2Grows(e: nat, f: nat)
    requires e <= f
    ensures Pow2(e) <= Pow2(f)
    decreases f
  {
    if e < f { Pow2Grows(e, f - 1); }
  }

  /** How many of the offsets `ps` other than `t` reach the cell of `t`. */
  function Clashes(reach: seq<nat>, t: nat, ps: seq<nat>): nat
    requires t < |reach| && forall k | 0 <= k < |ps| :: ps[k] < |reach|
  {
    if ps == [] then 0
    else (if ps[0] != t && reach[ps[0]] == reach[t] then 1 else 0) + Clashes(reach, t, ps[1..])
  }

  function AllClashes(reach: seq<nat>, ts: seq<nat>, ps: seq<nat>): nat
    requires forall k | 0 <= k < |ps| :: ps[k] < |reach|
    requires forall k | 0 <= k < |ts| :: ts[k] < |reach|
  {
    if ts == [] then 0 else Clashes(reach, ts[0], ps) + AllClashes(reach, ts[1..], ps)
  }

  lemma {:induction false} NoClash(reach: seq<nat>, t: nat, ps: seq<nat>)
    requires t < |reach| && forall k | 0 <= k < |ps| :: ps[k] < |reach|
    ensures Clashes(reach, t, ps) == 0 <==> forall p | p in ps && p != t :: reach[p] != reach[t]
  {
    if ps != [] {
      NoClash(reach, t, ps[1..]);
      assert forall p :: p in ps <==> p == ps[0] || p in ps[1..];
    }
  }

  lemma {:induction false} NoClashes(reach: seq<nat>, ts: seq<nat>, ps: seq<nat>)
    requires forall k | 0 <= k < |ps| :: ps[k] < |reach|
    requires forall k | 0 <= k < |ts| :: ts[k] < |reach|
    ensures AllClashes(reach, ts, ps) == 0 <==> forall t, p | t in ts && p in ps && p != t :: reach[p] != reach[t]
  {
    if ts != [] {
      NoClash(reach, ts[0], ps);
      NoClashes(reach, ts[1..], ps);
      assert forall t :: t in ts <==> t == ts[0] || t in ts[1..];
    }
  }

  /** What the walking ones count. */
  function WalkingOnes(reach: seq<nat>, n: nat): nat
    requires 0 < |reach| && n <= |reach|
  {
    Clashes(reach, 0, Doublings(1, n)) + AllClashes(reach, Doublings(1, n), Doublings(1, n))
  }

  ghost predicate OnLine(k: nat, n: nat) { k == 0 || (k < n && PowerFrom(0, k)) }

  /** The walking ones count nothing exactly when zero and the powers of two in range reach different cells. */
  lemma WalkingOnesExact(reach: seq<nat>, n: nat)
    requires 0 < |reach| && n <= |reach|
    ensures WalkingOnes(reach, n) == 0
       <==> forall j, k | 0 <= j < |reach| && 0 <= k < |reach| && OnLine(j, n) && OnLine(k, n) && j != k ::
              reach[j] != reach[k]
  {
    hide Clashes, AllClashes, PowerFrom;
    var ps := Doublings(1, n);
    NoClash(reach, 0, ps);
    NoClashes(reach, ps, ps);
    forall k: nat ensures k in ps <==> k < n && PowerFrom(0, k) { PowersVisited(n, k); }
    assert forall k: nat :: OnLine(k, n) <==> k == 0 || k in ps;
    assert 0 !in ps;
    assert OnLine(0, n);
  }

  lemma PowersVisited(n: nat, k: nat)
    ensures k in Doublings(1, n) <==> k < n && PowerFrom(0, k)
  {
    DoublingsFrom(0, n, k);
    assert Pow2(0) == 1;
  }

  ghost predicate AllPattern(cells: seq<nat>, reach: seq<nat>, ps: seq<nat>)
    requires Wired(reach, 0, |cells|)
  {
    forall p | p in ps :: p < |reach| && cells[reach[p]] == PATTERN
  }

  lemma NextDoubling(offset: nat, n: nat, ps: seq<nat>, i: nat)
    requires 0 < offset && i <= |ps| && Doublings(offset, n) == ps[i..]
    ensures offset >= n <==> i == |ps|
    ensures offset < n ==> ps[i] == offset && Doublings(2 * offset, n) == ps[i + 1..]
  {
  }

  lemma OnePattern(cells: seq<nat>, after: seq<nat>, reach: seq<nat>, ps: seq<nat>, i: nat)
    requires Wired(reach, 0, |cells|) && i < |ps| && ps[i] < |reach| && AllPattern(cells, reach, ps[..i])
    requires after == cells[reach[ps[i]] := PATTERN]
    ensures AllPattern(after, reach, ps[..i + 1])
  {
    assert ps[..i + 1] == ps[..i] + [ps[i]];
  }

  method WritePatterns(cells: array<nat>, reach: seq<nat>, n: nat)
    requires Wired(reach, n, cells.Length)
    modifies cells
    ensures AllPattern(cells[..], reach, Doublings(1, n))
  {
    ghost var ps := Doublings(1, n);
    ghost var i := 0;
    var offset := 1;
    assert AllPattern(cells[..], reach, ps[..0]);
    hide AllPattern, Doublings;
    NextDoubling(offset, n, ps, i);
    while offset < n
      invariant offset > 0 && i <= |ps| && Doublings(offset, n) == ps[i..] && (offset >= n <==> i == |ps|)
      invariant AllPattern(cells[..], reach, ps[..i])
    {
      NextDoubling(offset, n, ps, i);
      ghost var before := cells[..];
      cells[reach[offset]] := PATTERN;
      OnePattern(before, cells[..], reach, ps, i);
      offset, i := 2 * offset, i + 1;
      NextDoubling(offset, n, ps, i);
    }
    assert ps[..|ps|] == ps;
  }

  /** Puts the anti-pattern at `t`, looks at every power of two, and puts the pattern there. */
  method Probe(cells: array<nat>, reach: seq<nat>, t: nat, n: nat) returns (errs: nat)
    requires t < |reach| && Wired(reach, n, cells.Length) && AllPattern(cells[..], reach, Doublings(1, n))
    modifies cells
    ensures AllPattern(cells[..], reach, Doublings(1, n)) && errs == Clashes(reach, t, Doublings(1, n))
  {
    hide Doublings, Clashes;
    cells[reach[t]] := ANTI_PATTERN;
    errs := CountClashes(cells, reach, t, n);
    cells[reach[t]] := PATTERN;
  }

  method AddressLines(cells: array<nat>, reach: seq<nat>, n: nat) returns (errs: nat)
    requires 0 < |reach| && Wired(reach, n, cells.Length)
    modifies cells
    ensures errs == WalkingOnes(reach, n)
  {
    hide Doublings, Clashes, AllPattern;
    WritePatterns(cells, reach, n);
    ghost var ps := Doublings(1, n);
    errs := Probe(cells, reach, 0, n);
    var t := 1;
    ghost var i := 0;
    NextDoubling(t, n, ps, i);
    while t < n
      invariant t > 0 && i <= |ps| && Doublings(t, n) == ps[i..] && (t >= n <==> i == |ps|)
      invariant AllPattern(cells[..], reach, ps)
      invariant errs + AllClashes(reach, ps[i..], ps) == WalkingOnes(reach, n)
    {
      NextDoubling(t, n, ps, i);
      var more := Probe(cells, reach, t, n);
      errs := errs + more;
      t, i := 2 * t, i + 1;
      NextDoubling(t, n, ps, i);
    }
  }

  /** Only the cell of `t` holds the anti-pattern: the inner loop counts the other offsets that show it. */
  method CountClashes(cells: array<nat>, reach: seq<nat>, t: nat, n: nat) returns (errs: nat)
    requires t < |reach| && Wired(reach, n, cells.Length)
    requires cells[reach[t]] == ANTI_PATTERN
    requires forall p | p in Doublings(1, n) && reach[p] != reach[t] :: cells[reach[p]] == PATTERN
    ensures errs == Clashes(reach, t, Doublings(1, n))
  {
    ghost var ps := Doublings(1, n);
    ghost var i := 0;
    var offset := 1;
    errs := 0;
    while offset < n
      invariant offset > 0 && i <= |ps| && Doublings(offset, n) == ps[i..]
      invariant errs + Clashes(reach, t, ps[i..]) == Clashes(reach, t, ps)
    {
      assert offset == ps[i] && offset in ps;
      var temp := cells[reach[offset]];
      if temp != PATTERN && offset != t { errs := errs + 1; }
      offset, i := 2 * offset, i + 1;
    }
  }

  // ---- the alternative test: every word ----

  ghost predicate SharedAt(reach: seq<nat>, n: nat, k: nat)
    requires k < n <= |reach|
  {
    exists j | 0 <= j < n :: j != k && reach[j] == reach[k]
  }

  /** The offsets below `i` whose cell some other offset below `n` reaches as well. */
  ghost function Shared(reach: seq<nat>, n: nat, i: nat): set<nat>
    requires i <= n <= |reach|
  {
    set k: nat | k < i && SharedAt(reach, n, k)
  }

  lemma SharedStep(reach: seq<nat>, n: nat, i: nat)
    requires i < n <= |reach|
    ensures |Shared(reach, n, i + 1)| == |Shared(reach, n, i)| + if SharedAt(reach, n, i) then 1 else 0
  {
    var before := Shared(reach, n, i);
    if SharedAt(reach, n, i) {
      assert Shared(reach, n, i + 1) == before + {i};
    } else {
      assert Shared(reach, n, i + 1) == before;
    }
  }

  /**
   * A pass in progress: each offset below `i` has left its new word, in `seen` by the last of them, and each
   * other cell still shows the old word of the last offset of all that reaches it, in `owner`.
   */
  ghost predicate Passing(reach: seq<nat>, cells: seq<nat>, owner: map<nat, nat>, seen: map<nat, nat>, i: nat, n: nat,
    was: nat -> nat, now: nat -> nat)
    requires Wired(reach, n, |cells|) && i <= n
  {
    && Owned(reach, cells, seen, i, now)
    && (forall k | 0 <= k < n :: reach[k] in owner && k <= owner[reach[k]])
    && (forall c | c in owner :: owner[c] < n && reach[owner[c]] == c && (c !in seen ==> cells[c] == was(owner[c])))
  }

  /** Offset `i` shows another word than its own exactly when it shares its cell. */
  lemma PassDecides(reach: seq<nat>, cells: seq<nat>, owner: map<nat, nat>, seen: map<nat, nat>, i: nat, n: nat,
    was: nat -> nat, now: nat -> nat)
    requires Wired(reach, n, |cells|) && i < n && Passing(reach, cells, owner, seen, i, n, was, now)
    requires forall j | 0 <= j < n :: now(j) != was(i) && (j != i ==> was(j) != was(i))
    ensures cells[reach[i]] != was(i) <==> SharedAt(reach, n, i)
  {
    var c := reach[i];
    if c in seen {
      assert seen[c] < i && reach[seen[c]] == c;
    } else if owner[c] != i {
      assert reach[owner[c]] == c;
    } else {
      forall j | 0 <= j < n && j != i ensures reach[j] != c {}
    }
  }

  lemma PassStep(reach: seq<nat>, cells: seq<nat>, owner: map<nat, nat>, seen: map<nat, nat>, i: nat, n: nat,
    was: nat -> nat, now: nat -> nat)
    requires Wired(reach, n, |cells|) && i < n && Passing(reach, cells, owner, seen, i, n, was, now)
    ensures Passing(reach, cells[reach[i] := now(i)], owner, seen[reach[i] := i], i + 1, n, was, now)
  {
    hide Owned;
    OwnedStep(reach, cells, seen, i, now);
  }

  lemma PassStarts(reach: seq<nat>, cells: seq<nat>, owner: map<nat, nat>, n: nat, was: nat -> nat, now: nat -> nat)
    requires Wired(reach, n, |cells|) && Owned(reach, cells, owner, n, was)
    ensures Passing(reach, cells, owner, map[], 0, n, was, now) && |Shared(reach, n, 0)| == 0
  {
    assert Shared(reach, n, 0) == {};
  }

  lemma PassEnds(reach: seq<nat>, cells: seq<nat>, owner: map<nat, nat>, seen: map<nat, nat>, n: nat,
    was: nat -> nat, now: nat -> nat)
    requires Wired(reach, n, |cells|) && Passing(reach, cells, owner, seen, n, n, was, now)
    ensures Owned(reach, cells, seen, n, now)
  {
  }

  lemma PassTurn(reach: seq<nat>, cells: seq<nat>, owner: map<nat, nat>, seen: map<nat, nat>, i: nat, n: nat,
    was: nat -> nat, now: nat -> nat)
    requires Wired(reach, n, |cells|) && i < n && Passing(reach, cells, owner, seen, i, n, was, now)
    requires forall j | 0 <= j < n :: now(j) != was(i) && (j != i ==> was(j) != was(i))
    ensures Passing(reach, cells[reach[i] := now(i)], owner, seen[reach[i] := i], i + 1, n, was, now)
    ensures |Shared(reach, n, i + 1)| == |Shared(reach, n, i)| + if cells[reach[i]] != was(i) then 1 else 0
  {
    hide Passing, Shared, SharedAt;
    PassDecides(reach, cells, owner, seen, i, n, was, now);
    PassStep(reach, cells, owner, seen, i, n, was, now);
    SharedStep(reach, n, i);
  }

  ghost function Counted(): nat -> nat { (i: nat) => i + 1 }

  ghost function Inverted(w: Width): nat -> nat { (i: nat) => if i + 1 < w.Modulus() then w.Not(i + 1) else 0 }

  ghost function Zeroed(): nat -> nat { (i: nat) => 0 }

  lemma CountedFacts(w: Width, n: nat, i: nat)
    requires i < n && n * 2 < w.Modulus()
    ensures Counted()(i) == i + 1 && Inverted(w)(i) == w.Not(i + 1) && Zeroed()(i) == 0
    ensures forall j | 0 <= j < n :: Inverted(w)(j) != Counted()(i) && (j != i ==> Counted()(j) != Counted()(i))
    ensures forall j | 0 <= j < n :: Zeroed()(j) != Inverted(w)(i) && (j != i ==> Inverted(w)(j) != Inverted(w)(i))
  {
  }

  method FillCounting(cells: array<nat>, reach: seq<nat>, n: nat) returns (ghost owner: map<nat, nat>)
    requires Wired(reach, n, cells.Length)
    modifies cells
    ensures Owned(reach, cells[..], owner, n, Counted())
  {
    owner := map[];
    var pattern := 1;
    for i := 0 to n
      invariant pattern == i + 1 && Owned(reach, cells[..], owner, i, Counted())
    {
      OwnedStep(reach, cells[..], owner, i, Counted());
      hide Owned;
      cells[reach[i]] := pattern;
      owner := owner[reach[i] := i];
      pattern := pattern + 1;
    }
  }

  lemma InvertTurn(w: Width, reach: seq<nat>, cells: seq<nat>, after: seq<nat>, owner: map<nat, nat>,
                   seen: map<nat, nat>, i: nat, n: nat)
    requires Wired(reach, n, |cells|) && i < n && n * 2 < w.Modulus()
    requires after == cells[reach[i] := w.Not(i + 1)]
    requires Passing(reach, cells, owner, seen, i, n, Counted(), Inverted(w))
    ensures Passing(reach, after, owner, seen[reach[i] := i], i + 1, n, Counted(), Inverted(w))
    ensures |Shared(reach, n, i + 1)| == |Shared(reach, n, i)| + if cells[reach[i]] != i + 1 then 1 else 0
  {
    hide Passing, Shared, Counted, Inverted, Zeroed;
    CountedFacts(w, n, i);
    PassTurn(reach, cells, owner, seen, i, n, Counted(), Inverted(w));
  }

  lemma ClearTurn(w: Width, reach: seq<nat>, cells: seq<nat>, after: seq<nat>, owner: map<nat, nat>,
                  seen: map<nat, nat>, i: nat, n: nat)
    requires Wired(reach, n, |cells|) && i < n && n * 2 < w.Modulus()
    requires after == cells[reach[i] := 0]
    requires Passing(reach, cells, owner, seen, i, n, Inverted(w), Zeroed())
    ensures Passing(reach, after, owner, seen[reach[i] := i], i + 1, n, Inverted(w), Zeroed())
    ensures |Shared(reach, n, i + 1)| == |Shared(reach, n, i)| + if cells[reach[i]] != w.Not(i + 1) then 1 else 0
  {
    hide Passing, Shared, Counted, Inverted, Zeroed;
    CountedFacts(w, n, i);
    PassTurn(reach, cells, owner, seen, i, n, Inverted(w), Zeroed());
  }

  method CheckAndInvert(w: Width, cells: array<nat>, reach: seq<nat>, n: nat, ghost owner: map<nat, nat>)
    returns (errs: nat, ghost seen: map<nat, nat>)
    requires n * 2 < w.Modulus() && Wired(reach, n, cells.Length) && Owned(reach, cells[..], owner, n, Counted())
    modifies cells
    ensures errs == |Shared(reach, n, n)|
    ensures Owned(reach, cells[..], seen, n, Inverted(w))
  {
    hide Owned, Shared, Passing, Counted, Inverted, Zeroed, Width.Modulus, Width.Not;
    ghost var was, now := Counted(), Inverted(w);
    seen := map[];
    errs := 0;
    PassStarts(reach, cells[..], owner, n, was, now);
    var pattern := 1;
    for i := 0 to n
      invariant pattern == i + 1 && errs == |Shared(reach, n, i)|
      invariant Passing(reach, cells[..], owner, seen, i, n, was, now)
    {
      var temp := cells[reach[i]];
      if temp != pattern { errs := errs + 1; }
      ghost var before := cells[..];
      cells[reach[i]] := w.Not(pattern);
      InvertTurn(w, reach, before, cells[..], owner, seen, i, n);
      seen := seen[reach[i] := i];
      pattern := pattern + 1;
    }
    PassEnds(reach, cells[..], owner, seen, n, was, now);
  }

  method CheckAndClear(w: Width, cells: array<nat>, reach: seq<nat>, n: nat, ghost owner: map<nat, nat>)
    returns (errs: nat)
    requires n * 2 < w.Modulus() && Wired(reach, n, cells.Length) && Owned(reach, cells[..], owner, n, Inverted(w))
    modifies cells
    ensures errs == |Shared(reach, n, n)| && forall k | 0 <= k < n :: cells[reach[k]] == 0
  {
    hide Owned, Shared, Passing, Counted, Inverted, Zeroed, Width.Modulus, Width.Not;
    ghost var was, now := Inverted(w), Zeroed();
    ghost var seen: map<nat, nat> := map[];
    errs := 0;
    PassStarts(reach, cells[..], owner, n, was, now);
    var pattern := 1;
    for i := 0 to n
      invariant pattern == i + 1 && errs == |Shared(reach, n, i)|
      invariant Passing(reach, cells[..], owner, seen, i, n, was, now)
    {
      var temp := cells[reach[i]];
      if temp != w.Not(pattern) { errs := errs + 1; }
      ghost var before := cells[..];
      cells[reach[i]] := 0;
      ClearTurn(w, reach, before, cells[..], owner, seen, i, n);
      seen := seen[reach[i] := i];
      pattern := pattern + 1;
    }
    PassEnds(reach, cells[..], owner, seen, n, was, now);
    AllZero(reach, cells[..], seen, n);
  }

  lemma AllZero(reach: seq<nat>, cells: seq<nat>, owner: map<nat, nat>, n: nat)
    requires Wired(reach, n, |cells|) && Owned(reach, cells, owner, n, Zeroed())
    ensures forall k | 0 <= k < n :: cells[reach[k]] == 0
  {
  }

  lemma NoneShared(reach: seq<nat>, n: nat)
    requires n <= |reach|
    ensures |Shared(reach, n, n)| == 0 <==> Injective(reach, n)
  {
    if Injective(reach, n) {
      assert forall k | 0 <= k < n :: !SharedAt(reach, n, k);
      assert Shared(reach, n, n) == {};
    } else {
      var i, j :| 0 <= i < j < n && reach[i] == reach[j];
      assert SharedAt(reach, n, i);
      assert i in Shared(reach, n, n);
    }
  }

  /** Every phase in turn; the last one takes in one word more than the others. */
  method AltTest(w: Width, cells: array<nat>, reach: seq<nat>, scratch: nat, start: nat, end: nat) returns (errs: nat)
    requires Wired(reach, Words(w, start, end) + 1, cells.Length) && scratch < cells.Length
    modifies cells
    ensures errs == 0 <==> reach[0] != scratch && Injective(reach, Words(w, start, end) + 1)
    ensures forall k | 0 <= k <= Words(w, start, end) :: cells[reach[k]] == 0
  {
    var n := Words(w, start, end);
    FewWords(w, start, end);
    hide Words;
    errs := DataLines(w, cells, reach[0], scratch);
    var lines := AddressLines(cells, reach, n);
    ghost var owner := FillCounting(cells, reach, n + 1);
    var first: nat;
    first, owner := CheckAndInvert(w, cells, reach, n + 1, owner);
    var second := CheckAndClear(w, cells, reach, n + 1, owner);
    NoneShared(reach, n + 1);
    if Injective(reach, n + 1) { LinesAreWords(reach, n); }
    errs := errs + lines + first + second;
  }

  lemma LinesAreWords(reach: seq<nat>, n: nat)
    requires n < |reach| && Injective(reach, n + 1)
    ensures WalkingOnes(reach, n) == 0
  {
    WalkingOnesExact(reach, n);
    forall j, k | 0 <= j < |reach| && 0 <= k < |reach| && OnLine(j, n) && OnLine(k, n) && j != k
      ensures reach[j] != reach[k]
    {
      assert reach[if j < k then j else k] != reach[if j < k then k else j];
    }
  }
}
