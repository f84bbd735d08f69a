/** Packets as text on the line, from the sender's file to the receiver's memory. */
module KermitLine {
  import opened Base
  import opened Kermit
  import opened KermitReceiver

  // ---- short packets

  function Sum(s: seq<Byte>): nat {
    if s == [] then 0 else Sum(s[..|s| - 1]) + s[|s| - 1]
  }

  /** Length, number, type, data and check, between the start and end characters. */
  function ShortText(n: nat, kind: Byte, data: seq<Byte>): seq<Byte> {
    var head: seq<Byte> := [ToChar(|data| + 3), ToChar(n), kind];
    [START_CHAR] + head + data + [Check(ToChar(|data| + 3) as nat + ToChar(n) as nat + kind + Sum(data)), END_CHAR]
  }

  lemma {:induction false} ScanDataAll(data: seq<Byte>, tail: seq<Byte>, n: nat, kind: Byte, acc: seq<Byte>,
                                       sum: nat, k: nat)
    requires k <= |data| && Clean(data)
    ensures ScanData(data[k..] + tail, n, kind, acc + data[..k], |data| - k + 1, sum + Sum(data[..k]))
         == ScanEnd(tail, n, kind, acc + data, sum + Sum(data))
    decreases |data| - k
  {
    hide ScanEnd;
    if k == |data| {
      assert data[k..] + tail == tail && data[..k] == data;
    } else {
      var s := data[k..] + tail;
      assert s[0] == data[k] && s[1..] == data[k + 1..] + tail;
      assert data[..k + 1][..k] == data[..k];
      assert acc + data[..k] + [data[k]] == acc + data[..k + 1];
      ScanDataAll(data, tail, n, kind, acc, sum, k + 1);
    }
  }

  predicate Clean(data: seq<Byte>) {
    forall i | 0 <= i < |data| :: !Control(data[i])
  }

  /** A short packet is accepted, and nothing behind it is touched. */
  lemma ShortScans(n: nat, kind: Byte, data: seq<Byte>, rest: seq<Byte>)
    requires n < 64 && !Control(kind) && |data| + 3 <= 94 && Clean(data)
    ensures ScanStart(ShortText(n, kind, data) + rest) == Got(Packet(n, kind, data, true), rest)
  {
    hide ScanData, ScanType, Check, Sum;
    var len, num := ToChar(|data| + 3), ToChar(n);
    var sum := len as nat + num as nat;
    var tail := [Check(sum + kind + Sum(data)), END_CHAR] + rest;
    var s := ShortText(n, kind, data) + rest;
    var t := [kind] + data + tail;
    assert s[0] == START_CHAR && s[1..] == [len, num] + t;
    CharsRoundTrip(|data| + 3);
    CharsRoundTrip(n);
    assert ([len, num] + t)[2..] == t;
    BodyScans(n, kind, data, rest, |data| + 3, sum);
  }

  lemma CharsRoundTrip(x: nat)
    requires x <= 94
    ensures UnToChar(ToChar(x)) == x && !Control(ToChar(x))
  {
  }

  lemma BodyScans(n: nat, kind: Byte, data: seq<Byte>, rest: seq<Byte>, len: nat, sum: nat)
    requires !Control(kind) && len == |data| + 3 && Clean(data)
    ensures ScanType([kind] + data + ([Check(sum + kind + Sum(data)), END_CHAR] + rest), len, n, sum)
         == Got(Packet(n, kind, data, true), rest)
  {
    hide ScanType, ScanData, ScanEnd, Check, Sum, Control;
    var tail := [Check(sum + kind + Sum(data)), END_CHAR] + rest;
    EndScans(n, kind, data, rest, sum + kind + Sum(data));
    assert [kind] + data + tail == [kind] + (data + tail);
    TypeScans(n, kind, data + tail, len, sum);
    ScanDataAll(data, tail, n, kind, [], sum + kind, 0);
    SumNothing(data);
    assert data[0..] == data && [] + data[..0] == [] && [] + data == data;
  }

  lemma TypeScans(n: nat, kind: Byte, t: seq<Byte>, len: nat, sum: nat)
    requires !Control(kind) && len > 0
    ensures ScanType([kind] + t, len, n, sum) == ScanData(t, n, kind, [], len - 2, sum + kind)
  {
    hide ScanData, Control;
    assert ([kind] + t)[1..] == t;
  }

  lemma EndScans(n: nat, kind: Byte, data: seq<Byte>, rest: seq<Byte>, sum: nat)
    ensures ScanEnd([Check(sum), END_CHAR] + rest, n, kind, data, sum) == Got(Packet(n, kind, data, true), rest)
  {
    hide Check;
    assert ([Check(sum), END_CHAR] + rest)[2..] == rest;
  }

  lemma SumNothing(data: seq<Byte>)
    ensures Sum(data[..0]) == 0
  {
  }

  // ---- packets with an extended header

  const MOST_DATA: nat := 94 * 95 + 93

  /** Length zero, number, type, two length characters with a check of their own, data and check. */
  function LongText(n: nat, kind: Byte, data: seq<Byte>): seq<Byte> {
    var hi, lo := ToChar((|data| + 1) / 95), ToChar((|data| + 1) % 95);
    var sum := ToChar(0) as nat + ToChar(n) as nat + kind + hi + lo;
    var head: seq<Byte> := [START_CHAR, ToChar(0), ToChar(n), kind, hi, lo, Check(sum)];
    head + data + [Check(sum + Check(sum) + Sum(data)), END_CHAR]
  }

  lemma LongScans(n: nat, kind: Byte, data: seq<Byte>, rest: seq<Byte>)
    requires n < 64 && !Control(kind) && |data| <= MOST_DATA && Clean(data)
    ensures ScanStart(LongText(n, kind, data) + rest) == Got(Packet(n, kind, data, true), rest)
  {
    hide ScanLong, Check, Sum, Control, ToChar, UnToChar;
    var hi, lo := ToChar((|data| + 1) / 95), ToChar((|data| + 1) % 95);
    var sum := ToChar(0) as nat + ToChar(n) as nat + kind;
    var h := Check(sum + hi + lo);
    var t := [hi, lo, h] + data + ([Check(sum + hi + lo + h + Sum(data)), END_CHAR] + rest);
    var s := LongText(n, kind, data) + rest;
    assert s == [START_CHAR, ToChar(0), ToChar(n), kind] + t;
    CharsRoundTrip(0);
    CharsRoundTrip(n);
    LengthRoundTrips(|data| + 1);
    LongBodyScans(n, kind, hi, lo, data, rest, sum);
    HeaderScans(n, kind, t);
  }

  lemma HeaderScans(n: nat, kind: Byte, t: seq<Byte>)
    requires n < 64 && !Control(kind)
    ensures ScanStart([START_CHAR, ToChar(0), ToChar(n), kind] + t)
         == ScanLong(t, n, kind, ToChar(0) as nat + ToChar(n) as nat + kind)
  {
    hide ScanLong, ScanData, ToChar, UnToChar, Control;
    var s := [START_CHAR, ToChar(0), ToChar(n), kind] + t;
    CharsRoundTrip(0);
    CharsRoundTrip(n);
    assert s[1..] == [ToChar(0), ToChar(n), kind] + t;
    assert s[1..][2..] == [kind] + t;
    assert ([kind] + t)[1..] == t;
  }

  lemma LongBodyScans(n: nat, kind: Byte, hi: Byte, lo: Byte, data: seq<Byte>, rest: seq<Byte>, sum: nat)
    requires !Control(hi) && !Control(lo) && UnToChar(hi) * 95 + UnToChar(lo) == |data| + 1 && Clean(data)
    ensures var h := Check(sum + hi + lo);
            var tail := [Check(sum + hi + lo + h + Sum(data)), END_CHAR] + rest;
            ScanLong([hi, lo, h] + data + tail, n, kind, sum) == Got(Packet(n, kind, data, true), rest)
  {
    hide ScanLong, ScanData, Check, Sum, UnToChar, Control, Clean;
    var h := Check(sum + hi + lo);
    var tail := [Check(sum + hi + lo + h + Sum(data)), END_CHAR] + rest;
    assert [hi, lo, h] + data + tail == [hi, lo, h] + (data + tail);
    LengthScans(n, kind, hi, lo, data + tail, sum);
    DataScans(n, kind, data, rest, sum + hi + lo + h);
  }

  /** The two length characters give the length back. */
  lemma LengthRoundTrips(m: nat)
    requires m <= MOST_DATA + 1
    ensures var hi, lo := ToChar(m / 95), ToChar(m % 95);
            !Control(hi) && !Control(lo) && UnToChar(hi) * 95 + UnToChar(lo) == m
  {
    hide ToChar, UnToChar, Control;
    CharsRoundTrip(m / 95);
    CharsRoundTrip(m % 95);
  }

  lemma LengthScans(n: nat, kind: Byte, hi: Byte, lo: Byte, t: seq<Byte>, sum: nat)
    requires !Control(hi) && !Control(lo)
    ensures var h := Check(sum + hi + lo);
            var len := UnToChar(hi) * 95 + UnToChar(lo);
            ScanLong([hi, lo, h] + t, n, kind, sum) == ScanData(t, n, kind, [], len, sum + hi + lo + h)
  {
    hide ScanData, Check, UnToChar, Control;
    assert ([hi, lo, Check(sum + hi + lo)] + t)[3..] == t;
  }

  /** Data, check and end of line, once the length is known. */
  lemma DataScans(n: nat, kind: Byte, data: seq<Byte>, rest: seq<Byte>, sum: nat)
    requires Clean(data)
    ensures ScanData(data + ([Check(sum + Sum(data)), END_CHAR] + rest), n, kind, [], |data| + 1, sum)
         == Got(Packet(n, kind, data, true), rest)
  {
    hide ScanData, ScanEnd, Check, Sum, Control;
    var tail := [Check(sum + Sum(data)), END_CHAR] + rest;
    EndScans(n, kind, data, rest, sum + Sum(data));
    ScanDataAll(data, tail, n, kind, [], sum, 0);
    SumNothing(data);
    assert data[0..] == data && [] + data[..0] == [] && [] + data == data;
  }

  // ---- whatever is on the line

  /** The text is one attempt at a packet, whatever follows it. */
  ghost predicate ReadsAs(text: seq<Byte>, a: Attempt) {
    forall rest: seq<Byte> :: ScanStart(text + rest) == Got(a, rest)
  }

  /** Characters between packets: anything but a start character and ^C. */
  predicate Noise(s: seq<Byte>) {
    forall i | 0 <= i < |s| :: s[i] != START_CHAR && s[i] != ETX_CHAR
  }

  /** What a sender puts on the line for one packet: the short form where it fits. */
  datatype Sent = Sent(noise: seq<Byte>, n: nat, kind: Byte, data: seq<Byte>)

  predicate Framed(p: Sent) {
    Noise(p.noise) && p.n < 64 && !Control(p.kind) && |p.data| <= MOST_DATA
  }

  predicate Sendable(p: Sent) {
    Framed(p) && Clean(p.data)
  }

  function TextOf(p: Sent): seq<Byte> {
    p.noise + if |p.data| + 3 <= 94 then ShortText(p.n, p.kind, p.data) else LongText(p.n, p.kind, p.data)
  }

  function AttemptOf(p: Sent): Attempt { Packet(p.n, p.kind, p.data, true) }

  lemma {:induction false} NoiseSkipped(noise: seq<Byte>, s: seq<Byte>)
    requires Noise(noise)
    ensures ScanStart(noise + s) == ScanStart(s)
  {
    if noise == [] {
      assert noise + s == s;
    } else {
      assert (noise + s)[1..] == noise[1..] + s;
      NoiseSkipped(noise[1..], s);
    }
  }

  /** A packet as the protocol frames it, short or extended, is accepted whole, and nothing behind it is touched. */
  lemma PacketScans(p: Sent)
    requires Sendable(p)
    ensures ReadsAs(TextOf(p), AttemptOf(p))
  {
    hide ScanStart, ShortText, LongText;
    forall rest: seq<Byte> ensures ScanStart(TextOf(p) + rest) == Got(AttemptOf(p), rest) {
      var frame := if |p.data| + 3 <= 94 then ShortText(p.n, p.kind, p.data) else LongText(p.n, p.kind, p.data);
      assert TextOf(p) + rest == p.noise + (frame + rest);
      NoiseSkipped(p.noise, frame + rest);
      if |p.data| + 3 <= 94 { ShortScans(p.n, p.kind, p.data, rest); } else { LongScans(p.n, p.kind, p.data, rest); }
    }
  }

  function Line(texts: seq<seq<Byte>>): seq<Byte> {
    if texts == [] then [] else texts[0] + Line(texts[1..])
  }

  /** Only the last attempt ends the transfer. */
  ghost predicate EndsOnce(run: seq<Attempt>) {
    Ended(run) && forall i | 0 <= i < |run| - 1 :: !Breaks(run[i])
  }

  /** Texts that read as attempts are received as these attempts. */
  lemma {:induction false} LineReads(texts: seq<seq<Byte>>, run: seq<Attempt>, rest: seq<Byte>)
    requires |texts| == |run| && EndsOnce(run) && forall i | 0 <= i < |run| :: ReadsAs(texts[i], run[i])
    ensures Transfer(Line(texts) + rest) == run
  {
    hide ScanStart, Transfer, Breaks;
    var more := Line(texts[1..]) + rest;
    assert Line(texts) + rest == texts[0] + more;
    assert ReadsAs(texts[0], run[0]);
    TransferStep(texts[0] + more);
    if |run| > 1 {
      assert run[1..][|run| - 2] == run[|run| - 1];
      LineReads(texts[1..], run[1..], rest);
      assert run == [run[0]] + run[1..];
    } else {
      assert run == [run[0]];
    }
  }

  /**
    From characters to file: whatever is on the line for each attempt, garbled and repeated packets
    included, a transfer in which every packet is finally accepted leaves exactly the file in memory.
   */
  lemma LineDelivers(texts: seq<seq<Byte>>, blocks: seq<seq<Attempt>>, quote: Byte, file: seq<Byte>, rest: seq<Byte>)
    requires Orderly(blocks) && SentUnder(blocks, quote) && Legal(quote) && Payload(blocks) == Encode(quote, file)
    requires EndsOnce(Flatten(blocks)) && |texts| == |Flatten(blocks)|
    requires forall i | 0 <= i < |texts| :: ReadsAs(texts[i], Flatten(blocks)[i])
    ensures var run := Transfer(Line(texts) + rest);
            Ended(run) && DecodeChunks(Core(false, []), Delivered(run)).image == file
  {
    hide *;
    LineReads(texts, Flatten(blocks), rest);
    EndsEnded(Flatten(blocks));
    FileArrives(blocks, quote, file);
    RunDelivers(Flatten(blocks));
  }

  lemma EndsEnded(run: seq<Attempt>)
    requires EndsOnce(run)
    ensures Ended(run)
  {
  }

  // ---- a sender without errors

  function DataSent(ps: seq<Sent>): seq<Byte> {
    if ps == [] then []
    else
      var p := ps[|ps| - 1];
      DataSent(ps[..|ps| - 1]) + if p.kind == DATA_TYPE then p.data else []
  }

  /**
    An S packet that announces the quote character, packets of other types, and a B packet at the end.
    Only packets that carry no data of the file need to be free of control characters as they are.
   */
  ghost predicate Session(ps: seq<Sent>, quote: Byte) {
    && |ps| >= 2 && ps[0].kind == SEND_TYPE && Announced(ps[0].data) == quote && ps[|ps| - 1].kind == BREAK_TYPE
    && (forall i | 0 <= i < |ps| :: Framed(ps[i]) && (ps[i].kind != DATA_TYPE ==> Clean(ps[i].data)))
    && (forall i | 0 < i < |ps| :: ps[i].n != ps[i - 1].n && ps[i].kind != SEND_TYPE)
    && (forall i | 0 <= i < |ps| - 1 :: ps[i].kind != BREAK_TYPE)
  }

  function Texts(ps: seq<Sent>): (ts: seq<seq<Byte>>)
    ensures |ts| == |ps| && forall i | 0 <= i < |ps| :: ts[i] == TextOf(ps[i])
  {
    seq(|ps|, i requires 0 <= i < |ps| => TextOf(ps[i]))
  }

  ghost function Attempts(ps: seq<Sent>): (run: seq<Attempt>)
    ensures |run| == |ps| && forall i | 0 <= i < |ps| :: run[i] == AttemptOf(ps[i])
  {
    seq(|ps|, i requires 0 <= i < |ps| => AttemptOf(ps[i]))
  }

  ghost function Singles(run: seq<Attempt>): (blocks: seq<seq<Attempt>>)
    ensures |blocks| == |run| && forall i | 0 <= i < |run| :: blocks[i] == [run[i]]
  {
    seq(|run|, i requires 0 <= i < |run| => [run[i]])
  }

  lemma {:induction false} SinglesFlatten(run: seq<Attempt>)
    ensures Flatten(Singles(run)) == run
  {
    if run != [] {
      var n := |run| - 1;
      assert Singles(run)[..n] == Singles(run[..n]);
      SinglesFlatten(run[..n]);
    }
  }

  lemma {:induction false} SinglesPayload(ps: seq<Sent>)
    ensures Payload(Singles(Attempts(ps))) == DataSent(ps)
  {
    if ps != [] {
      var n := |ps| - 1;
      var run := Attempts(ps);
      assert Attempts(ps[..n]) == run[..n];
      assert Singles(run)[..n] == Singles(run[..n]);
      SinglesPayload(ps[..n]);
    }
  }

  /** Behind the S packet its quote character is in force. */
  lemma {:induction false} QuoteStays(ps: seq<Sent>, quote: Byte, k: nat)
    requires Session(ps, quote) && 0 < k <= |ps|
    ensures QuoteAfter(Attempts(ps)[..k]) == quote
  {
    var run := Attempts(ps);
    assert run[..k][..k - 1] == run[..k - 1];
    if k > 1 { QuoteStays(ps, quote, k - 1); }
  }

  lemma SessionUnder(ps: seq<Sent>, quote: Byte)
    requires Session(ps, quote)
    ensures SentUnder(Singles(Attempts(ps)), quote)
  {
    hide QuoteAfter, Flatten;
    var run := Attempts(ps);
    var blocks := Singles(run);
    forall k | 0 < k <= |blocks| && DataIn(blocks[k - 1]) != [] ensures QuoteFor(blocks[..k]) == quote {
      assert blocks[..k][..k - 1] == Singles(run[..k - 1]);
      SinglesFlatten(run[..k - 1]);
      assert run[..k - 1] + [run[k - 1]][..0] == run[..k - 1];
      assert k != 1;
      QuoteStays(ps, quote, k - 1);
    }
  }

  lemma SessionOrderly(ps: seq<Sent>, quote: Byte)
    requires Session(ps, quote)
    ensures Orderly(Singles(Attempts(ps))) && EndsOnce(Attempts(ps))
  {
    hide Framed, Clean;
    var blocks := Singles(Attempts(ps));
    assert forall i | 0 <= i < |blocks| :: Settled(blocks[i]);
  }

  /**
    A file in quoted form, split over data packets anywhere, between an S packet and a B packet and with
    noise between packets: k_recv finishes, and memory holds the file.
   */
  lemma FileCrosses(ps: seq<Sent>, quote: Byte, file: seq<Byte>, rest: seq<Byte>)
    requires Session(ps, quote) && Legal(quote) && DataSent(ps) == Encode(quote, file)
    ensures var run := Transfer(Line(Texts(ps)) + rest);
            Ended(run) && DecodeChunks(Core(false, []), Delivered(run)).image == file
  {
    hide *;
    var run, texts := Attempts(ps), Texts(ps);
    SinglesFlatten(run);
    SinglesPayload(ps);
    SessionUnder(ps, quote);
    SessionOrderly(ps, quote);
    forall i | 0 <= i < |texts| ensures ReadsAs(texts[i], run[i]) {
      AllSendable(ps, quote, file, i);
      PacketScans(ps[i]);
    }
    LineDelivers(texts, Singles(run), quote, file, rest);
  }

  /** The data of a packet are characters of the quoted file. */
  lemma {:induction false} DataIsSent(ps: seq<Sent>, i: nat, j: nat)
    requires i < |ps| && ps[i].kind == DATA_TYPE && j < |ps[i].data|
    ensures ps[i].data[j] in DataSent(ps)
  {
    var n := |ps| - 1;
    if i < n { DataIsSent(ps[..n], i, j); }
  }

  lemma AllSendable(ps: seq<Sent>, quote: Byte, file: seq<Byte>, i: nat)
    requires Session(ps, quote) && Legal(quote) && DataSent(ps) == Encode(quote, file) && i < |ps|
    ensures Sendable(ps[i])
  {
    hide Encode, DataSent, Control, Framed;
    if ps[i].kind == DATA_TYPE {
      EncodedIsClean(quote, file);
      forall j | 0 <= j < |ps[i].data| ensures !Control(ps[i].data[j]) { DataIsSent(ps, i, j); }
    }
  }

  /** The same through k_recv itself. */
  method ReceiveFile(ps: seq<Sent>, ghost quote: Byte, ghost file: seq<Byte>) returns (size: nat, mem: seq<Byte>)
    requires Session(ps, quote) && Legal(quote) && DataSent(ps) == Encode(quote, file)
    ensures size == |file| && size <= |mem| && mem[..size] == file
  {
    hide *;
    var line := Line(Texts(ps));
    assert line + [] == line;
    FileCrosses(ps, quote, file, []);
    var finished: bool;
    finished, size, mem := Receive(line);
  }
}
