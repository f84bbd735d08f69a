/** The Kermit receiver of cmd/load.c: packet attempts, rollback on retransmission, control-character unquoting. */
module Kermit {
  import opened Base

  const START_CHAR: Byte := 1
  const ETX_CHAR: Byte := 3
  const END_CHAR: Byte := 13
  const SPACE: Byte := 32
  const K_ESCAPE: Byte := 35
  const SEND_TYPE: Byte := 83
  const DATA_TYPE: Byte := 68
  const BREAK_TYPE: Byte := 66
  const SEND_DATA_SIZE: nat := 20

  function ToChar(x: nat): Byte { (x + SPACE) % 256 }
  function UnToChar(x: Byte): nat { (x + 256 - SPACE) % 256 }

  /** Control characters are packet errors: the three high bits are clear. */
  predicate Control(c: Byte) { c < 32 }

  /** The one-character block check of a character sum. */
  function Check(sum: nat): Byte { ToChar((sum + sum / 64 % 4) % 64) }

  // ---- one attempt at a packet, as it stands on the line

  /**
    `Garbled`: the length or the sequence character did not arrive. Otherwise the number, the type and
    the data characters that arrived, and whether the packet was accepted.
   */
  datatype Attempt = Garbled | Packet(n: nat, kind: Byte, data: seq<Byte>, ok: bool)

  datatype Scan = Starved | Interrupted | Got(attempt: Attempt, rest: seq<Byte>)

  /** Waits for the start of a packet. */
  function ScanStart(s: seq<Byte>): Scan {
    if s == [] then Starved
    else if s[0] == START_CHAR then ScanHeader(s[1..])
    else if s[0] == ETX_CHAR then Interrupted
    else ScanStart(s[1..])
  }

  function ScanHeader(s: seq<Byte>): Scan {
    if |s| < 1 then Starved
    else if Control(s[0]) then Got(Garbled, s[1..])
    else if |s| < 2 then Starved
    else if Control(s[1]) then Got(Garbled, s[2..])
    else ScanType(s[2..], UnToChar(s[0]), UnToChar(s[1]), s[0] as nat + s[1] as nat)
  }

  function ScanType(s: seq<Byte>, len: nat, n: nat, sum: nat): Scan {
    if |s| < 1 then Starved
    else if Control(s[0]) then Got(Packet(n, 0, [], false), s[1..])
    else if len == 0 then ScanLong(s[1..], n, s[0], sum + s[0])
    else ScanData(s[1..], n, s[0], [], len - 2, sum + s[0])
  }

  /** The extended header: two length characters and a check of their own. */
  function ScanLong(s: seq<Byte>, n: nat, kind: Byte, sum: nat): Scan {
    if |s| < 1 then Starved
    else if Control(s[0]) then Got(Packet(n, kind, [], false), s[1..])
    else if |s| < 2 then Starved
    else if Control(s[1]) then Got(Packet(n, kind, [], false), s[2..])
    else if |s| < 3 then Starved
    else if s[2] != Check(sum + s[0] + s[1]) then Got(Packet(n, kind, [], false), s[3..])
    else ScanData(s[3..], n, kind, [], UnToChar(s[0]) * 95 + UnToChar(s[1]), sum + s[0] + s[1] + s[2])
  }

  /** The data characters, while more than the check character is still to come. */
  function ScanData(s: seq<Byte>, n: nat, kind: Byte, data: seq<Byte>, len: int, sum: nat): Scan
    decreases |s|
  {
    if len <= 1 then ScanEnd(s, n, kind, data, sum)
    else if s == [] then Starved
    else if Control(s[0]) then Got(Packet(n, kind, data, false), s[1..])
    else ScanData(s[1..], n, kind, data + [s[0]], len - 1, sum + s[0])
  }

  function ScanEnd(s: seq<Byte>, n: nat, kind: Byte, data: seq<Byte>, sum: nat): Scan {
    if |s| < 1 then Starved
    else if s[0] != Check(sum) then Got(Packet(n, kind, data, false), s[1..])
    else if |s| < 2 then Starved
    else Got(Packet(n, kind, data, s[1] == END_CHAR), s[2..])
  }

  lemma {:induction false} ScanDataShrinks(s: seq<Byte>, n: nat, kind: Byte, data: seq<Byte>, len: int, sum: nat)
    ensures var r := ScanData(s, n, kind, data, len, sum);
            r.Got? ==> |r.rest| < |s| && r.attempt.Packet? && r.attempt.n == n
    decreases |s|
  {
    if len > 1 && s != [] && !Control(s[0]) { ScanDataShrinks(s[1..], n, kind, data + [s[0]], len - 1, sum + s[0]); }
  }

  lemma ScanTypeShrinks(s: seq<Byte>, len: nat, n: nat, sum: nat)
    ensures var r := ScanType(s, len, n, sum); r.Got? ==> |r.rest| < |s|
  {
    if |s| >= 1 && !Control(s[0]) {
      if len != 0 {
        ScanDataShrinks(s[1..], n, s[0], [], len - 2, sum + s[0]);
      } else if |s| >= 4 {
        var t, sum1 := s[1..], sum + s[0];
        ScanDataShrinks(t[3..], n, s[0], [], UnToChar(t[0]) * 95 + UnToChar(t[1]), sum1 + t[0] + t[1] + t[2]);
      }
    }
  }

  lemma {:induction false} ScanStartShrinks(s: seq<Byte>)
    ensures var r := ScanStart(s); r.Got? ==> |r.rest| < |s|
  {
    hide ScanType;
    if s != [] {
      if s[0] == START_CHAR {
        var h := s[1..];
        if |h| >= 2 { ScanTypeShrinks(h[2..], UnToChar(h[0]), UnToChar(h[1]), h[0] as nat + h[1] as nat); }
      } else if s[0] != ETX_CHAR {
        ScanStartShrinks(s[1..]);
      }
    }
  }

  // ---- unquoting

  /** ktrans: 0x40-0x5f and 0xc0-0xdf lose bit 6, 0x3f and 0xbf gain it. */
  function Ktrans(c: Byte): Byte {
    if c / 32 % 4 == 2 then c - 64 else if c % 128 == 63 then c + 64 else c
  }

  /** What the receiver has: whether the last character was the quote, and the bytes stored. */
  datatype Core = Core(esc: bool, image: seq<Byte>)

  function DataChar(c: Core, quote: Byte, ch: Byte): Core {
    if c.esc then Core(false, c.image + [Ktrans(ch)])
    else if ch == quote then Core(true, c.image)
    else Core(false, c.image + [ch])
  }

  function Decode(c: Core, quote: Byte, data: seq<Byte>): Core {
    if data == [] then c else DataChar(Decode(c, quote, data[..|data| - 1]), quote, data[|data| - 1])
  }

  // ---- the protocol

  /** Current state, the checkpoint, the last sequence number (-1 at first), the sender's quote character, the end. */
  datatype Link = Link(core: Core, saved: Core, lastN: int, quote: Byte, done: bool)

  const INITIAL: Link := Link(Core(false, []), Core(false, []), -1, K_ESCAPE, false)

  /** The quote character an accepted S packet announces. */
  function Announced(data: seq<Byte>): Byte {
    if |data| >= 6 then data[5] else K_ESCAPE
  }

  /** A repeated number goes back to the checkpoint, a new one makes a checkpoint. */
  function Begin(l: Link, n: nat): Link {
    var base := if n == l.lastN then l.saved else l.core;
    Link(base, base, n, l.quote, l.done)
  }

  /** What an attempt changes once its number is known. */
  function Finish(l: Link, a: Attempt): Link {
    if a.Garbled? || !a.ok then l.(core := l.saved)
    else if a.kind == DATA_TYPE then l.(core := Decode(l.saved, l.quote, a.data))
    else if a.kind == SEND_TYPE then l.(core := l.saved, quote := Announced(a.data))
    else l.(core := l.saved, done := l.done || a.kind == BREAK_TYPE)
  }

  function Step(l: Link, a: Attempt): Link {
    Finish(if a.Packet? then Begin(l, a.n) else l, a)
  }

  function Steps(l: Link, run: seq<Attempt>): Link {
    if run == [] then l else Step(Steps(l, run[..|run| - 1]), run[|run| - 1])
  }

  // ---- what a run delivers

  function LastN(run: seq<Attempt>): int {
    if run == [] then -1
    else if run[|run| - 1].Packet? then run[|run| - 1].n
    else LastN(run[..|run| - 1])
  }

  /** Where the block of attempts at the last number begins; a garbled attempt belongs to the number before it. */
  function BlockStart(run: seq<Attempt>): (k: nat)
    requires run != []
    ensures k < |run|
  {
    var front, a := run[..|run| - 1], run[|run| - 1];
    if front == [] then 0
    else if a.Packet? && a.n != LastN(front) then |run| - 1
    else BlockStart(front)
  }

  /** The quote character in force: the last one announced by an accepted S packet. */
  function QuoteAfter(run: seq<Attempt>): Byte {
    if run == [] then K_ESCAPE
    else
      var a := run[|run| - 1];
      if a.Packet? && a.ok && a.kind == SEND_TYPE then Announced(a.data) else QuoteAfter(run[..|run| - 1])
  }

  /** The data of an attempt, if it was an accepted data packet, with the quote character to read it by. */
  datatype Chunk = Chunk(quote: Byte, data: seq<Byte>)

  function DataOf(run: seq<Attempt>): seq<Chunk>
    requires run != []
  {
    var a := run[|run| - 1];
    if a.Packet? && a.ok && a.kind == DATA_TYPE then [Chunk(QuoteAfter(run[..|run| - 1]), a.data)] else []
  }

  /** The last attempt of every block, and nothing else. */
  function Delivered(run: seq<Attempt>): seq<Chunk> {
    if run == [] then [] else Delivered(run[..BlockStart(run)]) + DataOf(run)
  }

  function DecodeChunks(c: Core, chunks: seq<Chunk>): Core {
    if chunks == [] then c
    else Decode(DecodeChunks(c, chunks[..|chunks| - 1]), chunks[|chunks| - 1].quote, chunks[|chunks| - 1].data)
  }

  /** The checkpoint is the state before the block began. */
  lemma {:induction false} Checkpoint(run: seq<Attempt>)
    requires run != []
    ensures var l := Steps(INITIAL, run);
            && l.saved == Steps(INITIAL, run[..BlockStart(run)]).core
            && l.lastN == LastN(run) && l.quote == QuoteAfter(run)
  {
    hide Decode, Announced;
    var front := run[..|run| - 1];
    if front == [] {
      assert run[..0] == [];
    } else {
      Checkpoint(front);
      assert run[..BlockStart(front)] == front[..BlockStart(front)];
    }
  }

  /**
    Whatever attempts were made, whatever arrived of them, and however often: the receiver holds the
    decoded data of the last attempt of every block, in order, each once.
   */
  lemma {:induction false} RunDelivers(run: seq<Attempt>)
    ensures Steps(INITIAL, run).core == DecodeChunks(Core(false, []), Delivered(run))
    decreases |run|
  {
    hide Decode;
    if run != [] {
      var k := BlockStart(run);
      RunDelivers(run[..k]);
      LastAttempt(run);
      var d := DataOf(run);
      if d != [] {
        var all := Delivered(run[..k]) + d;
        assert all[..|all| - 1] == Delivered(run[..k]) && all[|all| - 1] == d[0];
      } else {
        assert Delivered(run[..k]) + d == Delivered(run[..k]);
      }
    }
  }

  lemma LastAttempt(run: seq<Attempt>)
    requires run != []
    ensures var before, d := Steps(INITIAL, run[..BlockStart(run)]).core, DataOf(run);
            var after := if d == [] then before else Decode(before, d[0].quote, d[0].data);
            Steps(INITIAL, run).core == after
  {
    hide Decode, Announced;
    var front := run[..|run| - 1];
    if front == [] {
      assert run[..0] == [];
    } else {
      Checkpoint(front);
      assert run[..BlockStart(front)] == front[..BlockStart(front)];
    }
  }

  // ---- a sender that repeats packets until they are accepted

  /** All attempts of a block carry one number, and the last one was accepted. */
  ghost predicate Settled(block: seq<Attempt>) {
    && block != [] && block[|block| - 1].Packet? && block[|block| - 1].ok
    && forall i | 0 <= i < |block| :: block[i].Packet? && block[i].n == block[|block| - 1].n
  }

  ghost function Number(block: seq<Attempt>): nat
    requires Settled(block)
  {
    block[|block| - 1].n
  }

  /** Every packet settles, and its number differs from the one before. */
  ghost predicate Orderly(blocks: seq<seq<Attempt>>) {
    && (forall i | 0 <= i < |blocks| :: Settled(blocks[i]))
    && (forall i | 0 < i < |blocks| :: Number(blocks[i]) != Number(blocks[i - 1]))
  }

  function Flatten(blocks: seq<seq<Attempt>>): seq<Attempt> {
    if blocks == [] then [] else Flatten(blocks[..|blocks| - 1]) + blocks[|blocks| - 1]
  }

  /** A settled block that follows another number starts where it starts. */
  lemma {:induction false} BlockStartSettled(front: seq<Attempt>, block: seq<Attempt>, k: nat)
    requires Settled(block) && 0 < k <= |block| && LastN(front) != Number(block)
    ensures BlockStart(front + block[..k]) == |front| && LastN(front + block[..k]) == Number(block)
  {
    var run := front + block[..k];
    assert run[|run| - 1] == block[k - 1];
    assert run[..|run| - 1] == front + block[..k - 1];
    if k == 1 {
      assert front + block[..0] == front;
    } else {
      BlockStartSettled(front, block, k - 1);
    }
  }

  lemma {:induction false} DecodeJoin(c: Core, quote: Byte, x: seq<Byte>, y: seq<Byte>)
    ensures Decode(Decode(c, quote, x), quote, y) == Decode(c, quote, x + y)
  {
    if y == [] {
      assert x + y == x;
    } else {
      assert (x + y)[..|x + y| - 1] == x + y[..|y| - 1];
      DecodeJoin(c, quote, x, y[..|y| - 1]);
    }
  }

  function DataIn(block: seq<Attempt>): seq<Byte> {
    if block == [] then []
    else
      var last := block[|block| - 1];
      if last.Packet? && last.kind == DATA_TYPE then last.data else []
  }

  /** The data characters of all packets, in order, once each. */
  function Payload(blocks: seq<seq<Attempt>>): seq<Byte> {
    if blocks == [] then [] else Payload(blocks[..|blocks| - 1]) + DataIn(blocks[|blocks| - 1])
  }

  /** The quote character in force when the last attempt of the last block was made. */
  function QuoteFor(blocks: seq<seq<Attempt>>): Byte
    requires blocks != []
  {
    var block := blocks[|blocks| - 1];
    QuoteAfter(Flatten(blocks[..|blocks| - 1]) + (if block == [] then [] else block[..|block| - 1]))
  }

  /** Every packet with data is sent under one quote character. */
  ghost predicate SentUnder(blocks: seq<seq<Attempt>>, quote: Byte) {
    forall k | 0 < k <= |blocks| :: DataIn(blocks[k - 1]) != [] ==> QuoteFor(blocks[..k]) == quote
  }

  /** A settled block adds the data of its last attempt and nothing of the others. */
  lemma BlockAdds(front: seq<Attempt>, block: seq<Attempt>)
    requires Settled(block) && LastN(front) != Number(block)
    ensures LastN(front + block) == Number(block)
    ensures Steps(INITIAL, front + block).core
         == Decode(Steps(INITIAL, front).core, QuoteAfter(front + block[..|block| - 1]), DataIn(block))
  {
    hide Decode, BlockStart, LastN, QuoteAfter, Steps;
    var run, before := front + block, Steps(INITIAL, front).core;
    assert block[..|block|] == block;
    BlockStartSettled(front, block, |block|);
    LastAttempt(run);
    assert run[..|front|] == front;
    assert run[|run| - 1] == block[|block| - 1] && run[..|run| - 1] == front + block[..|block| - 1];
    DecodeNothing(before, QuoteAfter(front + block[..|block| - 1]));
  }

  lemma DecodeNothing(c: Core, quote: Byte)
    ensures Decode(c, quote, []) == c
  {
  }

  lemma OrderlyFront(blocks: seq<seq<Attempt>>, quote: Byte)
    requires Orderly(blocks) && SentUnder(blocks, quote) && blocks != []
    ensures Orderly(blocks[..|blocks| - 1]) && SentUnder(blocks[..|blocks| - 1], quote)
  {
    hide Settled, QuoteFor, DataIn;
    var front := blocks[..|blocks| - 1];
    assert forall k | 0 <= k < |blocks| :: k <= |front| ==> front[..k] == blocks[..k];
    forall i | 0 < i < |front| ensures Number(front[i]) != Number(front[i - 1]) {
      assert front[i] == blocks[i] && front[i - 1] == blocks[i - 1];
    }
  }

  /**
    However many attempts fail or are repeated, a run in which every packet is finally accepted
    delivers each packet's data exactly once and in order.
   */
  lemma {:induction false} OrderlyRunDelivers(blocks: seq<seq<Attempt>>, quote: Byte)
    requires Orderly(blocks) && SentUnder(blocks, quote)
    ensures Steps(INITIAL, Flatten(blocks)).core == Decode(Core(false, []), quote, Payload(blocks))
    ensures blocks != [] ==> LastN(Flatten(blocks)) == Number(blocks[|blocks| - 1])
  {
    hide Decode, LastN, QuoteAfter, Steps, DataIn, SentUnder;
    if blocks == [] {
      DecodeNothing(Core(false, []), quote);
      NoSteps();
    } else {
      var front, block := blocks[..|blocks| - 1], blocks[|blocks| - 1];
      OrderlyFront(blocks, quote);
      OrderlyRunDelivers(front, quote);
      NoSteps();
      if front != [] { assert Number(blocks[|blocks| - 1]) != Number(blocks[|blocks| - 2]); }
      BlockAdds(Flatten(front), block);
      QuoteOfLast(blocks, quote);
      DecodeNothing(Steps(INITIAL, Flatten(front)).core, quote);
      DecodeNothing(Steps(INITIAL, Flatten(front)).core, QuoteFor(blocks));
      DecodeJoin(Core(false, []), quote, Payload(front), DataIn(block));
    }
  }

  lemma NoSteps()
    ensures Steps(INITIAL, []) == INITIAL && LastN([]) == -1
  {
  }

  lemma QuoteOfLast(blocks: seq<seq<Attempt>>, quote: Byte)
    requires blocks != [] && SentUnder(blocks, quote)
    ensures DataIn(blocks[|blocks| - 1]) != [] ==> QuoteFor(blocks) == quote
  {
    hide QuoteFor;
    assert blocks[..|blocks|] == blocks;
  }

  /** A garbled length or number character discards the packet accepted just before it. */
  lemma GarbledDropsAccepted(run: seq<Attempt>, a: Attempt)
    requires a.Packet? && a.n != LastN(run)
    ensures Steps(INITIAL, run + [a, Garbled]).core == Steps(INITIAL, run).core
  {
    hide Decode;
    var both := run + [a, Garbled];
    assert both[..|both| - 1] == run + [a] && (run + [a])[..|run|] == run;
    if run != [] { Checkpoint(run); }
  }

  // ---- control-character quoting

  predicate Legal(quote: Byte) {
    33 <= quote <= 62 || 96 <= quote <= 126
  }

  /** Kermit control prefixing of one byte: control characters change bit 6, the quote is doubled. */
  function Encode1(quote: Byte, b: Byte): seq<Byte> {
    var low := b % 128;
    if low < 32 then [quote, b + 64]
    else if low == 127 then [quote, b - 64]
    else if low == quote then [quote, b]
    else [b]
  }

  function Encode(quote: Byte, bytes: seq<Byte>): seq<Byte> {
    if bytes == [] then [] else Encode(quote, bytes[..|bytes| - 1]) + Encode1(quote, bytes[|bytes| - 1])
  }

  /** Encoded text never holds a character the receiver takes for an error. */
  lemma {:induction false} EncodedIsClean(quote: Byte, bytes: seq<Byte>)
    requires Legal(quote)
    ensures forall i | 0 <= i < |Encode(quote, bytes)| :: !Control(Encode(quote, bytes)[i])
  {
    if bytes != [] { EncodedIsClean(quote, bytes[..|bytes| - 1]); }
  }

  /** ktrans undoes the change of bit 6 and leaves a doubled quote alone. */
  lemma KtransInverts(quote: Byte, b: Byte)
    requires Legal(quote)
    ensures var e := Encode1(quote, b);
            if |e| == 1 then e == [b] && b != quote else |e| == 2 && e[0] == quote && Ktrans(e[1]) == b
  {
  }

  lemma Decode1(c: Core, quote: Byte, b: Byte)
    requires Legal(quote) && !c.esc
    ensures Decode(c, quote, Encode1(quote, b)) == Core(false, c.image + [b])
  {
    hide Encode1, Ktrans, Decode;
    var e := Encode1(quote, b);
    KtransInverts(quote, b);
    DecodeNothing(c, quote);
    DecodeSnoc(c, quote, [], e[0]);
    if |e| == 1 {
      assert e == [] + [e[0]];
    } else {
      assert e == [quote] + [e[1]] && [quote] == [] + [quote];
      DecodeSnoc(c, quote, [quote], e[1]);
    }
  }

  lemma DecodeSnoc(c: Core, quote: Byte, x: seq<Byte>, ch: Byte)
    ensures Decode(c, quote, x + [ch]) == DataChar(Decode(c, quote, x), quote, ch)
  {
    assert (x + [ch])[..|x + [ch]| - 1] == x;
  }

  /** Unquoting inverts quoting, for every byte string and every legal quote character. */
  lemma {:induction false} DecodeInvertsEncode(c: Core, quote: Byte, bytes: seq<Byte>)
    requires Legal(quote) && !c.esc
    ensures Decode(c, quote, Encode(quote, bytes)) == Core(false, c.image + bytes)
  {
    hide Decode, Encode1;
    if bytes == [] {
      DecodeNothing(c, quote);
    } else {
      var front, b := bytes[..|bytes| - 1], bytes[|bytes| - 1];
      DecodeInvertsEncode(c, quote, front);
      DecodeJoin(c, quote, Encode(quote, front), Encode1(quote, b));
      Decode1(Core(false, c.image + front), quote, b);
      assert c.image + front + [b] == c.image + bytes;
    }
  }

  /** A file sent in quoted form, split into packets anywhere, arrives as it is. */
  lemma FileArrives(blocks: seq<seq<Attempt>>, quote: Byte, file: seq<Byte>)
    requires Orderly(blocks) && SentUnder(blocks, quote) && Legal(quote)
    requires Payload(blocks) == Encode(quote, file)
    ensures Steps(INITIAL, Flatten(blocks)).core == Core(false, file)
  {
    hide Decode, Encode;
    OrderlyRunDelivers(blocks, quote);
    DecodeInvertsEncode(Core(false, []), quote, file);
    assert [] + file == file;
  }
}
