/** k_recv of cmd/load.c as it runs: characters from the line, data written straight to memory. */
module KermitReceiver {
  import opened Base
  import opened Kermit

  // ---- the receiver

  /**
    The receiver's static variables; `mem` is memory from the load address on, as far as it has been
    written, and `line` the characters still to come.
   */
  class Receiver {
    var line: seq<Byte>
    var mem: seq<Byte>
    var addr: nat
    var addrSaved: nat
    var esc: bool
    var escSaved: bool
    var lastN: int
    var quote: Byte
    var done: bool
    var parms: seq<Byte>
    var ptr: nat

    ghost predicate Valid()
      reads this
    {
      addrSaved <= addr <= |mem| && |parms| == SEND_DATA_SIZE && ptr < SEND_DATA_SIZE
    }

    ghost function L(): Link
      requires Valid()
      reads this
    {
      Link(Core(esc, mem[..addr]), Core(escSaved, mem[..addrSaved]), lastN, quote, done)
    }

    constructor (line: seq<Byte>)
      ensures Valid() && L() == INITIAL && this.line == line
    {
      this.line := line;
      mem, addr, addrSaved, esc, escSaved := [], 0, 0, false, false;
      lastN, quote, done, parms, ptr := -1, K_ESCAPE, false, seq(SEND_DATA_SIZE, _ => 0), 0;
    }

    method Save()
      requires Valid()
      modifies this
      ensures Valid() && L() == old(L()).(saved := old(L()).core)
      ensures line == old(line) && ptr == old(ptr) && parms == old(parms)
    {
      addrSaved, escSaved := addr, esc;
    }

    method Restore()
      requires Valid()
      modifies this
      ensures Valid() && L() == old(L()).(core := old(L()).saved)
      ensures line == old(line) && ptr == old(ptr) && parms == old(parms)
    {
      addr, esc := addrSaved, escSaved;
    }

    /** bin_data_char: stores in place, over whatever a discarded attempt left there. */
    method StoreByte(c: Byte)
      requires Valid()
      modifies this`mem, this`addr
      ensures Valid() && mem[..addr] == old(mem[..addr]) + [c] && mem[..addrSaved] == old(mem[..addrSaved])
    {
      mem := if addr < |mem| then mem[addr := c] else mem + [c];
      addr := addr + 1;
    }

    /** k_data_char */
    method PutDataChar(c: Byte)
      requires Valid()
      modifies this`mem, this`addr, this`esc
      ensures Valid() && L() == old(L()).(core := DataChar(old(L()).core, quote, c))
    {
      if esc {
        StoreByte(Ktrans(c));
        esc := false;
      } else if c == quote {
        esc := true;
      } else {
        StoreByte(c);
      }
    }

    /** The parameter buffer holds the first characters of an S packet, and never overflows. */
    ghost predicate Collected(data: seq<Byte>)
      reads this
      requires Valid()
    {
      && ptr == (if |data| < SEND_DATA_SIZE then |data| else SEND_DATA_SIZE - 1)
      && forall i | 0 <= i < ptr :: parms[i] == data[i]
    }

    method PutParm(c: Byte, ghost data: seq<Byte>)
      requires Valid() && Collected(data)
      modifies this`parms, this`ptr
      ensures Valid() && Collected(data + [c]) && L() == old(L())
    {
      parms := parms[ptr := c];
      ptr := ptr + 1;
      if ptr >= SEND_DATA_SIZE { ptr := ptr - 1; }
    }

    /** handle_send_packet, as far as it concerns the data: the quote character. */
    method TakeParms(ghost data: seq<Byte>)
      requires Valid() && Collected(data)
      modifies this`quote, this`ptr
      ensures Valid() && L() == old(L()).(quote := Announced(data))
    {
      quote := K_ESCAPE;
      if ptr == SEND_DATA_SIZE - 1 { ptr := ptr - 1; }
      if ptr >= 6 { quote := parms[5]; }
    }

    /** Reads the next character, if there is one. */
    method Getc() returns (ok: bool, c: Byte)
      requires Valid()
      modifies this`line
      ensures Valid() && L() == old(L()) && ok == (old(line) != [])
      ensures ok ==> c == old(line)[0] && line == old(line)[1..]
      ensures !ok ==> line == old(line)
    {
      ok, c := line != [], 0;
      if ok { c, line := line[0], line[1..]; }
    }

    /** The attempt on the line has been dealt with: the state is as `want` says and the rest is still to come. */
    ghost predicate Dealt(r: Scan, want: Link)
      reads this
    {
      Valid() && r.Got? && line == r.rest && L() == want
    }

    /** Data characters, check and end of line, once the number is known and the checkpoint is made. */
    method Body(n: nat, kind: Byte, len0: int, sum0: nat) returns (got: bool)
      requires Valid() && L().core == L().saved && ptr == 0
      modifies this
      ensures var r := ScanData(old(line), n, kind, [], len0, sum0);
              got == r.Got? && Valid() && (got ==> Dealt(r, Finish(old(L()), r.attempt)))
    {
      hide ScanEnd, Check, Announced, Decode, DataChar;
      ghost var l0, s0 := L(), line;
      var len: int, sum: nat := len0, sum0;
      ghost var data: seq<Byte> := [];
      DecodeNothing(l0.saved, quote);
      while len > 1
        invariant Valid() && ScanData(s0, n, kind, [], len0, sum0) == ScanData(line, n, kind, data, len, sum)
        invariant L() == (if kind == DATA_TYPE then l0.(core := Decode(l0.saved, l0.quote, data)) else l0)
        invariant kind == SEND_TYPE ==> Collected(data)
        decreases |line|
      {
        var ok, c := Getc();
        if !ok { return false; }
        if Control(c) {
          Restore();
          return true;
        }
        DecodeSnoc(l0.saved, l0.quote, data, c);
        sum, len := sum + c, len - 1;
        if kind == DATA_TYPE {
          PutDataChar(c);
        } else if kind == SEND_TYPE {
          PutParm(c, data);
        }
        data := data + [c];
      }
      got := Tail(n, kind, sum, data, l0);
    }

    /** Check character and end of line: the packet is accepted, or rolled back. */
    method Tail(n: nat, kind: Byte, sum: nat, ghost data: seq<Byte>, ghost l0: Link) returns (got: bool)
      requires Valid() && l0.core == l0.saved
      requires L() == (if kind == DATA_TYPE then l0.(core := Decode(l0.saved, l0.quote, data)) else l0)
      requires kind == SEND_TYPE ==> Collected(data)
      modifies this
      ensures var r := ScanEnd(old(line), n, kind, data, sum);
              got == r.Got? && Valid() && (got ==> Dealt(r, Finish(l0, r.attempt)))
    {
      hide Check, Announced, Decode;
      var ok, c := Getc();
      if !ok { return false; }
      if c != Check(sum) {
        Restore();
        return true;
      }
      ok, c := Getc();
      if !ok { return false; }
      if c != END_CHAR {
        Restore();
      } else if kind == SEND_TYPE {
        TakeParms(data);
      } else if kind == BREAK_TYPE {
        done := true;
      }
      got := true;
    }

    /** Type and extended length. */
    method TypeAndBody(len: nat, n: nat, sum0: nat) returns (got: bool)
      requires Valid() && L().core == L().saved && ptr == 0
      modifies this
      ensures var r := ScanType(old(line), len, n, sum0);
              got == r.Got? && Valid() && (got ==> Dealt(r, Finish(old(L()), r.attempt)))
    {
      hide ScanData, Check, Announced, Decode;
      var ok, kind := Getc();
      if !ok { return false; }
      if Control(kind) {
        Restore();
        return true;
      }
      if len != 0 {
        got := Body(n, kind, len - 2, sum0 + kind);
        return;
      }
      got := LongBody(n, kind, sum0 + kind);
    }

    method LongBody(n: nat, kind: Byte, sum: nat) returns (got: bool)
      requires Valid() && L().core == L().saved && ptr == 0
      modifies this
      ensures var r := ScanLong(old(line), n, kind, sum);
              got == r.Got? && Valid() && (got ==> Dealt(r, Finish(old(L()), r.attempt)))
    {
      hide ScanData, Check, Announced, Decode;
      ghost var s := line;
      var ok, hi := Getc();
      if !ok { return false; }
      if Control(hi) {
        Restore();
        return true;
      }
      var lo;
      ok, lo := Getc();
      if !ok { return false; }
      assert s[1..][1..] == s[2..];
      if Control(lo) {
        Restore();
        return true;
      }
      var check;
      ok, check := Getc();
      if !ok { return false; }
      assert s[2..][1..] == s[3..];
      if check != Check(sum + hi + lo) {
        Restore();
        return true;
      }
      got := Body(n, kind, UnToChar(hi) * 95 + UnToChar(lo), sum + hi + lo + check);
    }

    /** One attempt from its length character on. */
    method Attempted() returns (got: bool)
      requires Valid()
      modifies this
      ensures var r := ScanHeader(old(line));
              got == r.Got? && Valid() && (got ==> Dealt(r, Step(old(L()), r.attempt)))
    {
      hide ScanType, Announced, Decode;
      ptr := 0;
      ghost var l0, s := L(), line;
      var ok, c0 := Getc();
      if !ok { return false; }
      if Control(c0) {
        Restore();
        return true;
      }
      var c1;
      ok, c1 := Getc();
      if !ok { return false; }
      assert s[1..][1..] == s[2..];
      if Control(c1) {
        Restore();
        return true;
      }
      var n := UnToChar(c1);
      if n == lastN {
        Restore();
      } else {
        lastN := n;
        Save();
      }
      assert L() == Begin(l0, n);
      ScanTypeNumber(line, UnToChar(c0), n, c0 as nat + c1 as nat);
      got := TypeAndBody(UnToChar(c0), n, c0 as nat + c1 as nat);
    }

    /** Waits for a start character; ^C gives up. */
    method Packet() returns (got: bool, interrupted: bool)
      requires Valid()
      modifies this
      ensures var r := ScanStart(old(line));
              && got == r.Got? && interrupted == r.Interrupted? && Valid()
              && (got ==> Dealt(r, Step(old(L()), r.attempt)))
    {
      hide ScanHeader, Step;
      interrupted := false;
      ghost var s, l0 := line, L();
      while true
        invariant Valid() && L() == l0 && ScanStart(s) == ScanStart(line)
        decreases |line|
      {
        var ok, c := Getc();
        if !ok { return false, false; }
        if c == START_CHAR {
          HeaderNeverInterrupts(line);
          got := Attempted();
          return;
        }
        if c == ETX_CHAR { return false, true; }
      }
    }
  }

  lemma {:induction false} DataNeverInterrupts(s: seq<Byte>, n: nat, kind: Byte, data: seq<Byte>, len: int, sum: nat)
    ensures !ScanData(s, n, kind, data, len, sum).Interrupted?
    decreases |s|
  {
    if len > 1 && s != [] && !Control(s[0]) {
      DataNeverInterrupts(s[1..], n, kind, data + [s[0]], len - 1, sum + s[0]);
    }
  }

  lemma ScanTypeNumber(s: seq<Byte>, len: nat, n: nat, sum: nat)
    ensures var r := ScanType(s, len, n, sum); !r.Interrupted? && (r.Got? ==> r.attempt.Packet? && r.attempt.n == n)
  {
    hide ScanData;
    if |s| >= 1 {
      ScanDataShrinks(s[1..], n, s[0], [], len - 2, sum + s[0]);
      DataNeverInterrupts(s[1..], n, s[0], [], len - 2, sum + s[0]);
      if |s| >= 4 {
        var t, sum1 := s[1..], sum + s[0];
        ScanDataShrinks(t[3..], n, s[0], [], UnToChar(t[0]) * 95 + UnToChar(t[1]), sum1 + t[0] + t[1] + t[2]);
        DataNeverInterrupts(t[3..], n, s[0], [], UnToChar(t[0]) * 95 + UnToChar(t[1]), sum1 + t[0] + t[1] + t[2]);
      }
    }
  }

  lemma HeaderNeverInterrupts(s: seq<Byte>)
    ensures !ScanHeader(s).Interrupted?
  {
    hide ScanType;
    if |s| >= 2 { ScanTypeNumber(s[2..], UnToChar(s[0]), UnToChar(s[1]), s[0] as nat + s[1] as nat); }
  }

  // ---- a whole transfer

  /** The attempts on the line, up to and including the packet that ends the transfer. */
  function Transfer(line: seq<Byte>): seq<Attempt>
    decreases |line|
  {
    var r := ScanStart(line);
    if !r.Got? then []
    else if Breaks(r.attempt) then [r.attempt]
    else
      ScanStartShrinks(line);
      [r.attempt] + Transfer(r.rest)
  }

  /** The last attempt is the accepted break packet. */
  predicate Ended(run: seq<Attempt>) {
    run != [] && Breaks(run[|run| - 1])
  }

  predicate Breaks(a: Attempt) {
    a.Packet? && a.ok && a.kind == BREAK_TYPE
  }

  /**
    k_recv: when the transfer ends with its break packet, memory holds the data of the last attempt
    of every block of attempts, decoded, in order, and the size returned is its length.
   */
  method Receive(line: seq<Byte>) returns (finished: bool, size: nat, mem: seq<Byte>)
    ensures finished <==> Ended(Transfer(line))
    ensures size <= |mem| && (!finished ==> size == 0)
    ensures finished ==> mem[..size] == DecodeChunks(Core(false, []), Delivered(Transfer(line))).image
  {
    hide ScanStart, Step, Steps, Transfer, DecodeChunks, Delivered, Breaks;
    var k := new Receiver(line);
    ghost var run: seq<Attempt> := [];
    NoSteps();
    mem := [];
    while !k.done
      invariant k.Valid() && k.L() == Steps(INITIAL, run) && k.done == Ended(run)
      invariant Transfer(line) == run + (if k.done then [] else Transfer(k.line))
      decreases |k.line| + (if k.done then 0 else 1)
    {
      ghost var r, l0 := ScanStart(k.line), k.L();
      ScanStartShrinks(k.line);
      TransferStep(k.line);
      var got, _ := k.Packet();
      if !got {
        assert run + [] == run;
        return false, 0, k.mem;
      }
      StepDone(l0, r.attempt);
      OneMoreStep(run, r.attempt);
      assert run + ([r.attempt] + Transfer(k.line)) == run + [r.attempt] + Transfer(k.line);
      assert run + ([r.attempt] + []) == run + [r.attempt] + [];
      run := run + [r.attempt];
    }
    RunDelivers(run);
    assert run + [] == run;
    finished, size, mem := true, k.addr, k.mem;
  }

  lemma TransferStep(line: seq<Byte>)
    ensures var r := ScanStart(line);
            Transfer(line) == if !r.Got? then [] else [r.attempt] + (if Breaks(r.attempt) then [] else Transfer(r.rest))
  {
    hide ScanStart;
    ScanStartShrinks(line);
  }

  lemma OneMoreStep(run: seq<Attempt>, a: Attempt)
    ensures Steps(INITIAL, run + [a]) == Step(Steps(INITIAL, run), a)
  {
    hide Step;
    assert (run + [a])[..|run + [a]| - 1] == run;
  }

  lemma StepDone(l: Link, a: Attempt)
    requires !l.done
    ensures Step(l, a).done <==> Breaks(a)
  {
  }
}
