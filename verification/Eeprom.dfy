/** Page-bounded EEPROM transfers of cmd/eeprom.c. */
module Eeprom {
  import opened Base

  const I2C_RXTX_LEN: nat := 128
  const BLOCK: nat := 256

  /** Page sizes of up to eight address bits. */
  predicate PageSize(p: nat) {
    p == 1 || p == 2 || p == 4 || p == 8 || p == 16 || p == 32 || p == 64 || p == 128 || p == 256
  }

  // ---- one transfer

  /** eeprom_len: up to the end, the page boundary or the largest I2C transfer, whichever comes first. */
  function TransferLen(page: nat, offset: nat, end: nat): nat
    requires PageSize(page) && offset < end
  {
    var blkOff := offset % BLOCK;
    var room := page - blkOff % page;
    var maxlen := if room > I2C_RXTX_LEN then I2C_RXTX_LEN else room;
    if end - offset > maxlen then maxlen else end - offset
  }

  datatype Transfer = Transfer(offset: nat, len: nat)

  /** Not empty, not too long, inside one page and one 256-byte block. */
  ghost predicate Proper(page: nat, t: Transfer)
    requires page > 0
  {
    && 0 < t.len <= I2C_RXTX_LEN
    && t.offset % page + t.len <= page
    && t.offset % BLOCK + t.len <= BLOCK
  }

  lemma PageInBlock(page: nat, offset: nat)
    requires PageSize(page)
    ensures offset % BLOCK % page == offset % page
    ensures page - offset % page <= BLOCK - offset % BLOCK
  {
    PageDivides(page);
    PageTimes(page, 256 / page, offset);
  }

  lemma PageDivides(page: nat)
    requires PageSize(page)
    ensures page * (256 / page) == 256
  {
  }

  lemma PageTimes(page: nat, n: nat, offset: nat)
    requires page > 0 && page * n == BLOCK
    ensures offset % BLOCK % page == offset % page
    ensures page - offset % page <= BLOCK - offset % BLOCK
  {
    var q, r := offset / BLOCK, offset % BLOCK;
    var a, b := r / page, r % page;
    Regroup(page, n, q, a);
    DivIs(offset, page, n * q + a, b);
    FitsBelow(page, a, n, b);
  }

  lemma Regroup(page: nat, n: nat, q: nat, a: nat)
    ensures page * n * q + page * a == page * (n * q + a)
  {
  }

  lemma FitsBelow(page: nat, a: nat, n: nat, b: nat)
    requires page > 0 && page * a + b < page * n && b < page
    ensures page * a + page <= page * n
  {
    if a >= n { Monotone(page, n, a); } else { Monotone(page, a + 1, n); }
  }

  lemma Monotone(d: nat, x: nat, y: nat)
    requires x <= y
    ensures d * x <= d * y
  {
  }

  lemma TransferIsProper(page: nat, offset: nat, end: nat)
    requires PageSize(page) && offset < end
    ensures Proper(page, Transfer(offset, TransferLen(page, offset, end)))
    ensures TransferLen(page, offset, end) <= end - offset
  {
    PageInBlock(page, offset);
  }

  // ---- the device

  /** What a flat memory holds after a write. */
  function Written(m: seq<Byte>, offset: nat, data: seq<Byte>): (r: seq<Byte>)
    requires offset + |data| <= |m|
    ensures |r| == |m|
    ensures forall i | 0 <= i < |m| :: r[i] == if offset <= i < offset + |data| then data[i - offset] else m[i]
  {
    m[..offset] + data + m[offset + |data|..]
  }

  /** Where byte `i` of a transfer lands on a chip whose address counter wraps within the page. */
  function Landing(page: nat, offset: nat, i: nat): nat
    requires page > 0
  {
    offset - offset % page + (offset + i) % page
  }

  lemma LandsInPlace(page: nat, offset: nat, i: nat)
    requires page > 0 && offset % page + i < page
    ensures Landing(page, offset, i) == offset + i
  {
    var q := offset / page;
    assert offset + i == page * q + (offset % page + i);
    DivIs(offset + i, page, q, offset % page + i);
  }

  /** A write to the chip, byte by byte through its address counter. */
  method ChipWrite(mem: array<Byte>, page: nat, offset: nat, data: seq<Byte>)
    requires page > 0 && offset % page + |data| <= page && offset + |data| <= mem.Length
    modifies mem
    ensures mem[..] == Written(old(mem[..]), offset, data)
  {
    hide Landing;
    for i := 0 to |data|
      invariant forall j | 0 <= j < mem.Length ::
                  mem[j] == if offset <= j < offset + i then data[j - offset] else old(mem[j])
    {
      LandsInPlace(page, offset, i);
      mem[Landing(page, offset, i)] := data[i];
    }
  }

  // ---- the transfers of a range

  /** The transfers eeprom_rw makes from `offset` up to `end`. */
  function Transfers(page: nat, offset: nat, end: nat): seq<Transfer>
    requires PageSize(page)
    decreases end - offset
  {
    if offset >= end then []
    else
      TransferIsProper(page, offset, end);
      var n := TransferLen(page, offset, end);
      [Transfer(offset, n)] + Transfers(page, offset + n, end)
  }

  /** The transfers are proper and lie end to end from `from` to `to`. */
  ghost predicate Chain(page: nat, ts: seq<Transfer>, from: nat, to: nat)
    requires page > 0
  {
    if ts == [] then from == to
    else Proper(page, ts[0]) && ts[0].offset == from && Chain(page, ts[1..], from + ts[0].len, to)
  }

  lemma {:induction false} TransfersChain(page: nat, offset: nat, end: nat)
    requires PageSize(page) && offset <= end
    ensures Chain(page, Transfers(page, offset, end), offset, end)
    decreases end - offset
  {
    hide TransferLen, Proper;
    if offset < end {
      TransferIsProper(page, offset, end);
      ProperFits(page, Transfer(offset, TransferLen(page, offset, end)));
      TransfersChain(page, offset + TransferLen(page, offset, end), end);
    }
  }

  lemma ProperFits(page: nat, t: Transfer)
    requires page > 0 && Proper(page, t)
    ensures t.len > 0 && t.offset % page + t.len <= page
  {
  }

  /** Every byte of the range is in one of the transfers. */
  lemma {:induction false} ChainCovers(page: nat, ts: seq<Transfer>, from: nat, to: nat, i: nat)
    requires page > 0 && Chain(page, ts, from, to) && from <= i < to
    ensures Covered(ts, i)
    decreases |ts|
  {
    hide Proper;
    if In(ts[0], i) {
      assert Covered(ts, i);
    } else {
      ProperFits(page, ts[0]);
      ChainCovers(page, ts[1..], from + ts[0].len, to, i);
      var j :| 0 <= j < |ts[1..]| && In(ts[1..][j], i);
      assert In(ts[j + 1], i);
    }
  }

  ghost predicate Covered(ts: seq<Transfer>, i: int) { exists j | 0 <= j < |ts| :: In(ts[j], i) }

  predicate In(t: Transfer, i: int) { t.offset <= i < t.offset + t.len }

  // ---- what arrives

  /**
    Bytes `from` on of a range, before and after transfers from `source`: what a transfer covers is the
    source if it succeeded and as before if it failed.
   */
  ghost predicate Copied(before: seq<Byte>, after: seq<Byte>, source: seq<Byte>, from: nat, ts: seq<Transfer>,
                         fails: Transfer -> bool) {
    |before| == |after| == |source| && forall j | 0 <= j < |ts| :: CopiedBy(before, after, source, from, ts[j], fails)
  }

  ghost predicate CopiedBy(before: seq<Byte>, after: seq<Byte>, source: seq<Byte>, from: nat, t: Transfer,
                           fails: Transfer -> bool)
    requires |before| == |after| == |source|
  {
    forall k | 0 <= k < |source| && In(t, from + k) :: after[k] == if fails(t) then before[k] else source[k]
  }

  /** The bytes a transfer would bring are there already. */
  ghost predicate There(before: seq<Byte>, source: seq<Byte>, from: nat, t: Transfer)
    requires |before| == |source|
  {
    forall k | 0 <= k < |source| && In(t, from + k) :: before[k] == source[k]
  }

  /** Every transfer but the last that fails finds its bytes there already. */
  ghost predicate Harmless(before: seq<Byte>, source: seq<Byte>, from: nat, ts: seq<Transfer>, fails: Transfer -> bool)
    requires |before| == |source|
  {
    forall j | 0 <= j < |ts| - 1 && fails(ts[j]) :: There(before, source, from, ts[j])
  }

  /** What eeprom_rw returns: failure exactly when the last transfer failed. */
  predicate LastFails(ts: seq<Transfer>, fails: Transfer -> bool) {
    ts != [] && fails(ts[|ts| - 1])
  }

  /** The whole range holds the source exactly when every failed transfer would have changed nothing. */
  lemma AllThere(page: nat, before: seq<Byte>, after: seq<Byte>, source: seq<Byte>, from: nat, ts: seq<Transfer>,
                 fails: Transfer -> bool)
    requires page > 0 && Chain(page, ts, from, from + |source|) && Copied(before, after, source, from, ts, fails)
    ensures after == source <==> forall j | 0 <= j < |ts| && fails(ts[j]) :: There(before, source, from, ts[j])
  {
    hide Chain;
    if forall j | 0 <= j < |ts| && fails(ts[j]) :: There(before, source, from, ts[j]) {
      forall k | 0 <= k < |source| ensures after[k] == source[k] {
        ChainCovers(page, ts, from, from + |source|, from + k);
        var j :| 0 <= j < |ts| && In(ts[j], from + k);
        assert CopiedBy(before, after, source, from, ts[j], fails);
        assert fails(ts[j]) ==> There(before, source, from, ts[j]);
      }
    }
    if after == source {
      forall j | 0 <= j < |ts| && fails(ts[j]) ensures There(before, source, from, ts[j]) {
        assert CopiedBy(before, after, source, from, ts[j], fails);
      }
    }
  }

  /** A result of zero stands for the whole range exactly when no earlier failure mattered. */
  lemma ZeroMeansAll(page: nat, before: seq<Byte>, after: seq<Byte>, source: seq<Byte>, from: nat, ts: seq<Transfer>,
                     fails: Transfer -> bool)
    requires page > 0 && Chain(page, ts, from, from + |source|) && Copied(before, after, source, from, ts, fails)
    requires !LastFails(ts, fails)
    ensures after == source <==> Harmless(before, source, from, ts, fails)
  {
    hide Chain, Copied, There;
    AllThere(page, before, after, source, from, ts, fails);
  }

  /** Two pages, the first of which fails: the result is zero, and the first page is as it was. */
  lemma FailureIsMasked()
    ensures var before, source := Fill(64, 0), Fill(64, 1);
            var ts, fails := Transfers(32, 0, 64), (t: Transfer) => t.offset == 0;
            var after := before[..32] + source[32..];
            && ts == [Transfer(0, 32), Transfer(32, 32)] && !LastFails(ts, fails)
            && Copied(before, after, source, 0, ts, fails) && !Harmless(before, source, 0, ts, fails) && after != source
  {
    var before, source := Fill(64, 0), Fill(64, 1);
    var ts, fails := Transfers(32, 0, 64), (t: Transfer) => t.offset == 0;
    var after := before[..32] + source[32..];
    TwoPages();
    hide Transfers;
    assert after[0] == 0 && source[0] == 1;
    assert In(ts[0], 0 + 0);
    assert !There(before, source, 0, ts[0]);
  }

  lemma TwoPages()
    ensures Transfers(32, 0, 64) == [Transfer(0, 32), Transfer(32, 32)]
  {
    hide Transfers;
    assert TransferLen(32, 0, 64) == 32 == TransferLen(32, 32, 64);
    hide TransferLen;
    NextTransfer(32, 0, 64, [], Transfers(32, 0, 64));
    NextTransfer(32, 32, 64, [Transfer(0, 32)], Transfers(32, 0, 64));
    NoTransfers(32, 64, 64);
  }

  function Fill(n: nat, b: Byte): (s: seq<Byte>)
    ensures |s| == n && forall i | 0 <= i < n :: s[i] == b
  {
    seq(n, _ => b)
  }

  // ---- reading and writing

  /** Where the loop stops: the 32-bit sum of offset and count. */
  function EndOf(offset: nat, cnt: nat): nat {
    (offset + cnt) % TWO32
  }

  lemma NothingCopied(w: seq<Byte>, source: seq<Byte>, from: nat, fails: Transfer -> bool)
    requires |w| == |source|
    ensures Copied(w, w, source, from, [], fails)
  {
  }

  /** One more transfer, behind all others. */
  lemma CopyOne(w0: seq<Byte>, w1: seq<Byte>, w2: seq<Byte>, source: seq<Byte>, from: nat, ts: seq<Transfer>,
                t: Transfer, fails: Transfer -> bool)
    requires Copied(w0, w1, source, from, ts, fails) && |w2| == |w1|
    requires forall j | 0 <= j < |ts| :: ts[j].offset + ts[j].len <= t.offset
    requires forall k | 0 <= k < |w0| && t.offset <= from + k :: w1[k] == w0[k]
    requires forall k | 0 <= k < |w2| :: w2[k] == if In(t, from + k) && !fails(t) then source[k] else w1[k]
    ensures Copied(w0, w2, source, from, ts + [t], fails)
  {
    var all := ts + [t];
    forall j | 0 <= j < |all| ensures CopiedBy(w0, w2, source, from, all[j], fails) {
      if j < |ts| { assert CopiedBy(w0, w1, source, from, ts[j], fails); }
    }
  }

  /** The transfers still to come. */
  lemma NextTransfer(page: nat, offset: nat, end: nat, ts: seq<Transfer>, all: seq<Transfer>)
    requires PageSize(page) && offset < end && all == ts + Transfers(page, offset, end)
    ensures var n := TransferLen(page, offset, end);
            && 0 < n <= end - offset && offset % page + n <= page
            && all == ts + [Transfer(offset, n)] + Transfers(page, offset + n, end)
  {
    TransferIsProper(page, offset, end);
  }

  /** eeprom_write on a range that overflows 32 bits makes no transfer at all. */
  lemma NoTransfers(page: nat, offset: nat, end: nat)
    requires PageSize(page) && end <= offset
    ensures Transfers(page, offset, end) == []
  {
  }

  /**
    eeprom_write on a chip whose address counter wraps within a page: what each transfer covers is the
    data if it succeeded and as before if it failed, and nothing else changes. The result is that of the
    last transfer, so zero stands for one flat write exactly when no earlier failure mattered.
   */
  method EepromWrite(mem: array<Byte>, page: nat, offset: nat, buffer: seq<Byte>, fails: Transfer -> bool)
    returns (failed: bool, ts: seq<Transfer>)
    requires PageSize(page) && offset < TWO32 && |buffer| < TWO32
    requires offset + |buffer| < TWO32 ==> offset + |buffer| <= mem.Length
    modifies mem
    ensures ts == Transfers(page, offset, EndOf(offset, |buffer|)) && failed == LastFails(ts, fails)
    ensures offset + |buffer| >= TWO32 ==> mem[..] == old(mem[..]) && ts == []
    ensures forall i | 0 <= i < mem.Length && !(offset <= i < offset + |buffer|) :: mem[i] == old(mem[i])
    ensures offset + |buffer| < TWO32 ==>
              var end := offset + |buffer|;
              && Chain(page, ts, offset, end)
              && Copied(old(mem[offset..end]), mem[offset..end], buffer, offset, ts, fails)
              && (!failed ==> (mem[..] == Written(old(mem[..]), offset, buffer)
                          <==> Harmless(old(mem[offset..end]), buffer, offset, ts, fails)))
  {
    hide Transfers, Chain, Copied, Harmless;
    var end := EndOf(offset, |buffer|);
    if offset + |buffer| < TWO32 {
      failed, ts := WriteLoop(mem, page, offset, end, buffer, fails);
      TransfersChain(page, offset, end);
      if !failed {
        ZeroMeansAll(page, old(mem[offset..end]), mem[offset..end], buffer, offset, ts, fails);
        FlatWrite(old(mem[..]), mem[..], offset, buffer);
      }
    } else {
      NoTransfers(page, offset, end);
      failed, ts := false, [];
    }
  }

  lemma FlatWrite(m: seq<Byte>, r: seq<Byte>, offset: nat, data: seq<Byte>)
    requires |m| == |r| && offset + |data| <= |m|
    requires forall i | 0 <= i < |m| && !(offset <= i < offset + |data|) :: r[i] == m[i]
    ensures r == Written(m, offset, data) <==> r[offset..offset + |data|] == data
  {
    var window := r[offset..offset + |data|];
    if window == data {
      forall i | 0 <= i < |m| ensures r[i] == Written(m, offset, data)[i] {
        if offset <= i < offset + |data| { assert r[i] == window[i - offset]; }
      }
    }
  }

  /** A write of one transfer's share, seen in the range. */
  lemma WindowWritten(m: seq<Byte>, from: nat, buffer: seq<Byte>, t: Transfer)
    requires from + |buffer| <= |m| && from <= t.offset && t.offset + t.len <= from + |buffer|
    ensures var piece := buffer[t.offset - from..t.offset - from + t.len];
            var w1, w2 := m[from..from + |buffer|], Written(m, t.offset, piece)[from..from + |buffer|];
            forall k | 0 <= k < |buffer| :: w2[k] == if In(t, from + k) then buffer[k] else w1[k]
  {
    var piece := buffer[t.offset - from..t.offset - from + t.len];
    var r := Written(m, t.offset, piece);
    forall k | 0 <= k < |buffer|
      ensures r[from..from + |buffer|][k] == if In(t, from + k) then buffer[k] else m[from + k]
    {
      assert r[from + k] == if In(t, from + k) then piece[from + k - t.offset] else m[from + k];
    }
  }

  /** The loop of eeprom_rw when writing. */
  method WriteLoop(mem: array<Byte>, page: nat, from: nat, end: nat, buffer: seq<Byte>, fails: Transfer -> bool)
    returns (failed: bool, ts: seq<Transfer>)
    requires PageSize(page) && from + |buffer| == end <= mem.Length
    modifies mem
    ensures failed == LastFails(ts, fails)
    ensures ts == Transfers(page, from, end) && Copied(old(mem[from..end]), mem[from..end], buffer, from, ts, fails)
    ensures forall i | 0 <= i < mem.Length && !(from <= i < end) :: mem[i] == old(mem[i])
  {
    hide Transfers, TransferLen, Copied, Written;
    failed, ts := false, [];
    ghost var all := Transfers(page, from, end);
    ghost var was := mem[from..end];
    NothingCopied(was, buffer, from, fails);
    var offset := from;
    while offset < end
      invariant from <= offset <= end && all == ts + Transfers(page, offset, end) && failed == LastFails(ts, fails)
      invariant forall j | 0 <= j < |ts| :: ts[j].offset + ts[j].len <= offset
      invariant Copied(was, mem[from..end], buffer, from, ts, fails)
      invariant forall i | 0 <= i < mem.Length && !(from <= i < offset) :: mem[i] == old(mem[i])
    {
      NextTransfer(page, offset, end, ts, all);
      var t := Transfer(offset, TransferLen(page, offset, end));
      ghost var before := mem[..];
      if !fails(t) {
        ChipWrite(mem, page, offset, buffer[offset - from..offset - from + t.len]);
        WindowWritten(before, from, buffer, t);
      }
      CopyOne(was, before[from..end], mem[from..end], buffer, from, ts, t, fails);
      failed := fails(t);
      ts, offset := ts + [t], offset + t.len;
    }
    NoTransfers(page, offset, end);
    assert ts + [] == ts;
  }

  /**
    eeprom_read over the same transfers, into a buffer: the same with the roles of chip and buffer
    exchanged.
   */
  method EepromRead(mem: seq<Byte>, page: nat, from: nat, buffer: array<Byte>, fails: Transfer -> bool)
    returns (failed: bool, ts: seq<Transfer>)
    requires PageSize(page) && from < TWO32 && buffer.Length < TWO32
    requires from + buffer.Length < TWO32 ==> from + buffer.Length <= |mem|
    modifies buffer
    ensures ts == Transfers(page, from, EndOf(from, buffer.Length)) && failed == LastFails(ts, fails)
    ensures from + buffer.Length >= TWO32 ==> buffer[..] == old(buffer[..]) && ts == []
    ensures from + buffer.Length < TWO32 ==>
              var source := mem[from..from + buffer.Length];
              && Copied(old(buffer[..]), buffer[..], source, from, ts, fails)
              && (!failed ==> (buffer[..] == source <==> Harmless(old(buffer[..]), source, from, ts, fails)))
  {
    hide Transfers, TransferLen, Copied, Harmless;
    var end := EndOf(from, buffer.Length);
    failed, ts := false, [];
    if from + buffer.Length >= TWO32 {
      NoTransfers(page, from, end);
      return;
    }
    ghost var all, source := Transfers(page, from, end), mem[from..end];
    NothingCopied(buffer[..], source, from, fails);
    var offset := from;
    while offset < end
      invariant from <= offset <= end && all == ts + Transfers(page, offset, end) && failed == LastFails(ts, fails)
      invariant forall j | 0 <= j < |ts| :: ts[j].offset + ts[j].len <= offset
      invariant Copied(old(buffer[..]), buffer[..], source, from, ts, fails)
      invariant forall k | offset - from <= k < buffer.Length :: buffer[k] == old(buffer[k])
    {
      NextTransfer(page, offset, end, ts, all);
      var t := Transfer(offset, TransferLen(page, offset, end));
      ghost var before := buffer[..];
      if !fails(t) { Fetch(mem, offset, buffer, offset - from, t.len); }
      CopyOne(old(buffer[..]), before, buffer[..], source, from, ts, t, fails);
      failed := fails(t);
      ts, offset := ts + [t], offset + t.len;
    }
    NoTransfers(page, offset, end);
    assert ts + [] == ts;
    TransfersChain(page, from, end);
    if !failed { ZeroMeansAll(page, old(buffer[..]), buffer[..], source, from, ts, fails); }
  }

  /** A read from the chip. */
  method Fetch(mem: seq<Byte>, offset: nat, buffer: array<Byte>, at: nat, len: nat)
    requires offset + len <= |mem| && at + len <= buffer.Length
    modifies buffer
    ensures forall k | 0 <= k < buffer.Length ::
              buffer[k] == if at <= k < at + len then mem[offset + k - at] else old(buffer[k])
  {
    for i := 0 to len
      invariant forall k | 0 <= k < buffer.Length ::
                  buffer[k] == if at <= k < at + i then mem[offset + k - at] else old(buffer[k])
    {
      buffer[at + i] := mem[offset + i];
    }
  }
}
