/** lib/sha2.c against FIPS 180-4: compression, rolling schedule, unrolled rounds, streaming and padding. */
module Sha256 {
  import opened Base

  type Byte = bv8
  type Word = bv32

  const BLOCK: nat := 64
  const SHORT_BLOCK: nat := 56

  /** Eight words: the chaining value, or the working registers a to h. */
  datatype Hash = Hash(a: Word, b: Word, c: Word, d: Word, e: Word, f: Word, g: Word, h: Word)

  // ---- the six logical functions (FIPS 180-4 section 4.1.2)

  function Rotr(n: nat, x: Word): Word
    requires 0 < n < 32
  {
    (x >> n) | (x << (32 - n))
  }

  function Ch(x: Word, y: Word, z: Word): Word { (x & y) ^ (!x & z) }
  function Maj(x: Word, y: Word, z: Word): Word { (x & y) ^ (x & z) ^ (y & z) }
  function BigSigma0(x: Word): Word { Rotr(2, x) ^ Rotr(13, x) ^ Rotr(22, x) }
  function BigSigma1(x: Word): Word { Rotr(6, x) ^ Rotr(11, x) ^ Rotr(25, x) }
  function SmallSigma0(x: Word): Word { Rotr(7, x) ^ Rotr(18, x) ^ (x >> 3) }
  function SmallSigma1(x: Word): Word { Rotr(17, x) ^ Rotr(19, x) ^ (x >> 10) }

  /** The constants of section 4.2.2. */
  function K(t: nat): Word
    requires t < 64
  {
    [ 0x428a2f98, 0x71374491, 0xb5c0fbcf, 0xe9b5dba5, 0x3956c25b, 0x59f111f1, 0x923f82a4, 0xab1c5ed5,
      0xd807aa98, 0x12835b01, 0x243185be, 0x550c7dc3, 0x72be5d74, 0x80deb1fe, 0x9bdc06a7, 0xc19bf174,
      0xe49b69c1, 0xefbe4786, 0x0fc19dc6, 0x240ca1cc, 0x2de92c6f, 0x4a7484aa, 0x5cb0a9dc, 0x76f988da,
      0x983e5152, 0xa831c66d, 0xb00327c8, 0xbf597fc7, 0xc6e00bf3, 0xd5a79147, 0x06ca6351, 0x14292967,
      0x27b70a85, 0x2e1b2138, 0x4d2c6dfc, 0x53380d13, 0x650a7354, 0x766a0abb, 0x81c2c92e, 0x92722c85,
      0xa2bfe8a1, 0xa81a664b, 0xc24b8b70, 0xc76c51a3, 0xd192e819, 0xd6990624, 0xf40e3585, 0x106aa070,
      0x19a4c116, 0x1e376c08, 0x2748774c, 0x34b0bcb5, 0x391c0cb3, 0x4ed8aa4a, 0x5b9cca4f, 0x682e6ff3,
      0x748f82ee, 0x78a5636f, 0x84c87814, 0x8cc70208, 0x90befffa, 0xa4506ceb, 0xbef9a3f7, 0xc67178f2 ][t]
  }

  /** The initial value of section 5.3.3. */
  const H0: Hash := Hash(0x6a09e667, 0xbb67ae85, 0x3c6ef372, 0xa54ff53a, 0x510e527f, 0x9b05688c, 0x1f83d9ab, 0x5be0cd19)

  // ---- byte order

  function WordOf(b: seq<Byte>): Word
    requires |b| == 4
  {
    (b[3] as Word) | ((b[2] as Word) << 8) | ((b[1] as Word) << 16) | ((b[0] as Word) << 24)
  }

  function BytesOf(x: Word): (b: seq<Byte>)
    ensures |b| == 4
  {
    [((x >> 24) & 0xff) as Byte, ((x >> 16) & 0xff) as Byte, ((x >> 8) & 0xff) as Byte, (x & 0xff) as Byte]
  }

  // ---- the standard (sections 6.2.2 and 5.1.1)

  /** The message schedule: word t of 64. */
  function Schedule(block: seq<Byte>, t: nat): Word
    requires |block| == BLOCK && t < 64
  {
    if t < 16 then WordOf(block[4 * t..4 * t + 4])
    else Expand(Schedule(block, t - 2), Schedule(block, t - 7), Schedule(block, t - 15), Schedule(block, t - 16))
  }

  function Add(x: Word, y: Word): Word {
    x + y
  }

  function Expand(w2: Word, w7: Word, w15: Word, w16: Word): Word {
    Add(Add(Add(SmallSigma1(w2), w7), SmallSigma0(w15)), w16)
  }

  function T1(e: Word, f: Word, g: Word, h: Word, k: Word, w: Word): Word {
    h + BigSigma1(e) + Ch(e, f, g) + k + w
  }

  function T2(a: Word, b: Word, c: Word): Word {
    BigSigma0(a) + Maj(a, b, c)
  }

  function Round(r: Hash, k: Word, w: Word): Hash {
    var t1 := T1(r.e, r.f, r.g, r.h, k, w);
    Hash(Add(t1, T2(r.a, r.b, r.c)), r.a, r.b, r.c, Add(r.d, t1), r.e, r.f, r.g)
  }

  function Rounds(r: Hash, block: seq<Byte>, n: nat): Hash
    requires |block| == BLOCK && n <= 64
  {
    if n == 0 then r else Round(Rounds(r, block, n - 1), K(n - 1), Schedule(block, n - 1))
  }

  function AddHash(x: Hash, y: Hash): Hash {
    Hash(x.a + y.a, x.b + y.b, x.c + y.c, x.d + y.d, x.e + y.e, x.f + y.f, x.g + y.g, x.h + y.h)
  }

  function Compress(state: Hash, block: seq<Byte>): Hash
    requires |block| == BLOCK
  {
    AddHash(state, Rounds(state, block, 64))
  }

  /** The chaining value after a whole number of blocks. */
  function HashBlocks(state: Hash, m: seq<Byte>): Hash
    requires |m| % BLOCK == 0
  {
    if m == [] then state
    else Compress(HashBlocks(state, m[..|m| - BLOCK]), m[|m| - BLOCK..])
  }

  function LowByte(n: nat): Byte {
    (n % 256) as Byte
  }

  /** The lowest `k` bytes of a number, most significant first. */
  function BigEndian(n: nat, k: nat): (b: seq<Byte>)
    ensures |b| == k
  {
    if k == 0 then [] else BigEndian(n / 256, k - 1) + [LowByte(n)]
  }

  /** The length field: 64 bits, big-endian. */
  function LengthBytes(n: nat): (b: seq<Byte>)
    ensures |b| == 8
  {
    BigEndian(n, 8)
  }

  /** The same eight bytes as the code takes them, by shifts of 56 down to 0. */
  function ShiftBytes(n: nat): (b: seq<Byte>)
    ensures |b| == 8
  {
    [ LowByte(n / 0x100_0000_0000_0000), LowByte(n / 0x1_0000_0000_0000), LowByte(n / 0x100_0000_0000),
      LowByte(n / 0x1_0000_0000), LowByte(n / 0x100_0000), LowByte(n / 0x1_0000), LowByte(n / 0x100), LowByte(n) ]
  }

  lemma Quotients(n: nat)
    ensures n / 0x100 / 256 == n / 0x1_0000
    ensures n / 0x1_0000 / 256 == n / 0x100_0000
    ensures n / 0x100_0000 / 256 == n / 0x1_0000_0000
    ensures n / 0x1_0000_0000 / 256 == n / 0x100_0000_0000
    ensures n / 0x100_0000_0000 / 256 == n / 0x1_0000_0000_0000
    ensures n / 0x1_0000_0000_0000 / 256 == n / 0x100_0000_0000_0000
  {
  }

  lemma Unfold(n: nat, k: nat)
    requires k > 0
    ensures BigEndian(n, k) == BigEndian(n / 256, k - 1) + [LowByte(n)]
  {
  }

  lemma ShiftBytesAreBigEndian(n: nat)
    ensures ShiftBytes(n) == LengthBytes(n)
  {
    hide LowByte, BigEndian;
    Quotients(n);
    Unfold(n, 8);
    Unfold(n / 0x100, 7);
    Unfold(n / 0x1_0000, 6);
    Unfold(n / 0x100_0000, 5);
    Unfold(n / 0x1_0000_0000, 4);
    Unfold(n / 0x100_0000_0000, 3);
    Unfold(n / 0x1_0000_0000_0000, 2);
    Unfold(n / 0x100_0000_0000_0000, 1);
  }

  function Zeros(n: nat): (z: seq<Byte>)
    ensures |z| == n
  {
    seq(n, _ => 0 as Byte)
  }

  /** The number of zero bytes that brings the length to 56 modulo 64. */
  function ZeroCount(n: nat): (k: nat)
    ensures k < BLOCK && (n + 1 + k) % BLOCK == SHORT_BLOCK
  {
    (119 - n % BLOCK) % BLOCK
  }

  /** The padded message: a one bit, zeros, and the length in bits. */
  function Padded(m: seq<Byte>): (p: seq<Byte>)
    ensures |p| % BLOCK == 0
  {
    WithLengthField(|m| + 1 + ZeroCount(|m|));
    m + [0x80 as Byte] + Zeros(ZeroCount(|m|)) + LengthBytes(8 * |m| % TWO64)
  }

  lemma WithLengthField(n: nat)
    requires n % BLOCK == SHORT_BLOCK
    ensures (n + 8) % BLOCK == 0
  {
  }

  function Digest(h: Hash): seq<Byte> {
    BytesOf(h.a) + BytesOf(h.b) + BytesOf(h.c) + BytesOf(h.d)
    + BytesOf(h.e) + BytesOf(h.f) + BytesOf(h.g) + BytesOf(h.h)
  }

  function Sha(m: seq<Byte>): seq<Byte> {
    Digest(HashBlocks(H0, Padded(m)))
  }

  // ---- the transform, as a loop and unrolled

  /** The 16-word window holds the schedule words before `j`, each at its number modulo 16. */
  ghost predicate Window(w: seq<Word>, block: seq<Byte>, j: nat)
    requires |block| == BLOCK
  {
    |w| == 16 && j <= 64 && forall i | 0 <= i < j && j - 16 <= i :: w[i % 16] == Schedule(block, i)
  }

  /** The expansion as the code writes it, with the oldest word updated in place. */
  function ExpandInPlace(w: seq<Word>, j: nat): Word
    requires |w| == 16
  {
    Add(w[j % 16], Add(Add(SmallSigma1(w[(j + 14) % 16]), w[(j + 9) % 16]), SmallSigma0(w[(j + 1) % 16])))
  }

  lemma ExpandOrder(w: seq<Word>, j: nat)
    requires |w| == 16
    ensures ExpandInPlace(w, j) == Expand(w[(j + 14) % 16], w[(j + 9) % 16], w[(j + 1) % 16], w[j % 16])
  {
    hide SmallSigma0, SmallSigma1, Add;
    var x := Add(Add(SmallSigma1(w[(j + 14) % 16]), w[(j + 9) % 16]), SmallSigma0(w[(j + 1) % 16]));
    AddComm(w[j % 16], x);
  }

  lemma AddComm(x: Word, y: Word)
    ensures Add(x, y) == Add(y, x)
  {
  }

  /** Distances 2, 7, 15 and 16 back are 14, 9, 1 and 0 ahead, modulo 16. */
  lemma WindowIndices(j: nat)
    requires 16 <= j
    ensures (j - 2) % 16 == (j + 14) % 16 && (j - 7) % 16 == (j + 9) % 16
    ensures (j - 15) % 16 == (j + 1) % 16 && (j - 16) % 16 == j % 16
    ensures forall i | j - 16 < i < j :: i % 16 != j % 16
  {
    SamePlace(j - 2);
    SamePlace(j - 7);
    SamePlace(j - 15);
    SamePlace(j - 16);
    forall i | j - 16 < i < j ensures i % 16 != j % 16 { OtherPlace(i, j); }
  }

  lemma SamePlace(i: nat)
    ensures (i + 16) % 16 == i % 16
  {
  }

  lemma OtherPlace(i: nat, j: nat)
    requires i < j < i + 16
    ensures i % 16 != j % 16
  {
  }

  /** One step of the message expansion in the window gives the next schedule word. */
  lemma WindowStep(w: seq<Word>, block: seq<Byte>, j: nat)
    requires |block| == BLOCK && 16 <= j < 64 && Window(w, block, j)
    ensures ExpandInPlace(w, j) == Schedule(block, j)
    ensures Window(w[j % 16 := ExpandInPlace(w, j)], block, j + 1)
  {
    hide ExpandInPlace, Expand, Schedule;
    WindowReads(w, block, j);
    ExpandOrder(w, j);
    ExpandedWord(block, j);
    WindowPut(w, block, j, ExpandInPlace(w, j));
  }

  lemma ExpandedWord(block: seq<Byte>, j: nat)
    requires |block| == BLOCK && 16 <= j < 64
    ensures Schedule(block, j)
         == Expand(Schedule(block, j - 2), Schedule(block, j - 7), Schedule(block, j - 15), Schedule(block, j - 16))
  {
  }

  lemma WindowReads(w: seq<Word>, block: seq<Byte>, j: nat)
    requires |block| == BLOCK && 16 <= j < 64 && Window(w, block, j)
    ensures w[(j + 14) % 16] == Schedule(block, j - 2) && w[(j + 9) % 16] == Schedule(block, j - 7)
    ensures w[(j + 1) % 16] == Schedule(block, j - 15) && w[j % 16] == Schedule(block, j - 16)
  {
    hide Schedule;
    WindowIndices(j);
  }

  lemma WindowPut(w: seq<Word>, block: seq<Byte>, j: nat, x: Word)
    requires |block| == BLOCK && j < 64 && Window(w, block, j) && x == Schedule(block, j)
    ensures Window(w[j % 16 := x], block, j + 1)
  {
    hide Schedule;
    if j >= 16 { WindowIndices(j); }
  }

  lemma WindowLoad(w: seq<Word>, block: seq<Byte>, j: nat)
    requires |block| == BLOCK && j < 16 && Window(w, block, j)
    ensures Window(w[j := WordOf(block[4 * j..4 * j + 4])], block, j + 1)
  {
    LoadedWord(block, j);
    WindowPut(w, block, j, WordOf(block[4 * j..4 * j + 4]));
  }

  /** SHA256_Transform with a loop over the rounds. */
  method Transform(state: Hash, block: seq<Byte>) returns (r: Hash)
    requires |block| == BLOCK
    ensures r == Compress(state, block)
  {
    hide K, T1, T2, Add, ExpandInPlace, WordOf, Schedule, AddHash, Window;
    StartOfRounds(seq(16, _ => 0), state, block);
    var a, b, c, d, e, f, g, h := state.a, state.b, state.c, state.d, state.e, state.f, state.g, state.h;
    var w := new Word[16](_ => 0);
    assert w[..] == seq(16, _ => 0);
    for j := 0 to 64
      invariant Window(w[..], block, j)
      invariant Hash(a, b, c, d, e, f, g, h) == Rounds(state, block, j)
    {
      var x;
      if j < 16 {
        x := WordOf(block[4 * j..4 * j + 4]);
        WindowLoad(w[..], block, j);
        LoadedWord(block, j);
        w[j] := x;
      } else {
        x := ExpandInPlace(w[..], j);
        WindowStep(w[..], block, j);
        w[j % 16] := x;
      }
      var t1, t2 := T1(e, f, g, h, K(j), x), T2(a, b, c);
      a, b, c, d, e, f, g, h := Add(t1, t2), a, b, c, Add(d, t1), e, f, g;
    }
    r := AddHash(state, Hash(a, b, c, d, e, f, g, h));
  }

  lemma LoadedWord(block: seq<Byte>, j: nat)
    requires |block| == BLOCK && j < 16
    ensures Schedule(block, j) == WordOf(block[4 * j..4 * j + 4])
  {
  }

  /**
    The round macro of the unrolled transform: it fetches word j and changes only the registers in
    positions d and h; the caller then reads the registers one place further on.
   */
  method RoundInPlace(w: array<Word>, j: nat, a: Word, b: Word, c: Word, d: Word, e: Word, f: Word, g: Word, h: Word,
                      ghost state: Hash, block: seq<Byte>)
    returns (d': Word, h': Word)
    requires |block| == BLOCK && j < 64 && w.Length == 16 && Window(w[..], block, j)
    requires Hash(a, b, c, d, e, f, g, h) == Rounds(state, block, j)
    modifies w
    ensures Window(w[..], block, j + 1)
    ensures Hash(h', a, b, c, d', e, f, g) == Rounds(state, block, j + 1)
  {
    hide K, T1, T2, Add, ExpandInPlace, WordOf, Schedule, Window;
    var x;
    if j < 16 {
      x := WordOf(block[4 * j..4 * j + 4]);
      WindowLoad(w[..], block, j);
      LoadedWord(block, j);
      w[j] := x;
    } else {
      x := ExpandInPlace(w[..], j);
      WindowStep(w[..], block, j);
      w[j % 16] := x;
    }
    var t1 := T1(e, f, g, h, K(j), x);
    d' := Add(d, t1);
    h' := Add(t1, T2(a, b, c));
  }

  /** SHA256_Transform unrolled eight rounds at a time, the registers renamed instead of moved. */
  method TransformUnrolled(state: Hash, block: seq<Byte>) returns (r: Hash)
    requires |block| == BLOCK
    ensures r == Compress(state, block)
  {
    hide Rounds, Window, AddHash;
    var a, b, c, d, e, f, g, h := state.a, state.b, state.c, state.d, state.e, state.f, state.g, state.h;
    var w := new Word[16](_ => 0);
    StartOfRounds(w[..], state, block);
    var j := 0;
    while j < 64
      invariant j <= 64 && j % 8 == 0 && Window(w[..], block, j)
      invariant Hash(a, b, c, d, e, f, g, h) == Rounds(state, block, j)
    {
      d, h := RoundInPlace(w, j, a, b, c, d, e, f, g, h, state, block);
      c, g := RoundInPlace(w, j + 1, h, a, b, c, d, e, f, g, state, block);
      b, f := RoundInPlace(w, j + 2, g, h, a, b, c, d, e, f, state, block);
      a, e := RoundInPlace(w, j + 3, f, g, h, a, b, c, d, e, state, block);
      h, d := RoundInPlace(w, j + 4, e, f, g, h, a, b, c, d, state, block);
      g, c := RoundInPlace(w, j + 5, d, e, f, g, h, a, b, c, state, block);
      f, b := RoundInPlace(w, j + 6, c, d, e, f, g, h, a, b, state, block);
      e, a := RoundInPlace(w, j + 7, b, c, d, e, f, g, h, a, state, block);
      j := j + 8;
    }
    r := AddHash(state, Hash(a, b, c, d, e, f, g, h));
  }

  lemma StartOfRounds(w: seq<Word>, state: Hash, block: seq<Byte>)
    requires |block| == BLOCK && |w| == 16
    ensures Window(w, block, 0) && Rounds(state, block, 0) == state
  {
  }

  // ---- streaming

  /** The whole blocks of a message, and what is left over. */
  function Whole(m: seq<Byte>): (w: seq<Byte>)
    ensures |w| % BLOCK == 0
  {
    m[..|m| - |m| % BLOCK]
  }

  function Tail(m: seq<Byte>): seq<Byte> {
    m[|m| - |m| % BLOCK..]
  }

  lemma HashOneMore(state: Hash, m: seq<Byte>, block: seq<Byte>)
    requires |m| % BLOCK == 0 && |block| == BLOCK
    ensures |m + block| % BLOCK == 0 && HashBlocks(state, m + block) == Compress(HashBlocks(state, m), block)
  {
    assert (m + block)[..|m + block| - BLOCK] == m && (m + block)[|m + block| - BLOCK..] == block;
  }

  /** Appending bytes that do not complete a block leaves the whole blocks alone. */
  lemma AppendShort(m: seq<Byte>, x: seq<Byte>)
    requires |m| % BLOCK + |x| < BLOCK
    ensures Whole(m + x) == Whole(m) && Tail(m + x) == Tail(m) + x && |m + x| % BLOCK == |m| % BLOCK + |x|
  {
    LengthMod(|m|, |x|);
    assert m == Whole(m) + Tail(m);
  }

  /** Appending bytes that just complete a block adds that block. */
  lemma AppendFull(m: seq<Byte>, x: seq<Byte>)
    requires |m| % BLOCK + |x| == BLOCK
    ensures |m + x| % BLOCK == 0 && |Tail(m) + x| == BLOCK
    ensures HashBlocks(H0, m + x) == Compress(HashBlocks(H0, Whole(m)), Tail(m) + x)
  {
    hide Compress;
    LengthMod(|m|, |x|);
    assert m + x == Whole(m) + (Tail(m) + x);
    HashOneMore(H0, Whole(m), Tail(m) + x);
  }

  lemma LengthMod(n: nat, k: nat)
    requires n % BLOCK + k <= BLOCK
    ensures (n + k) % BLOCK == if n % BLOCK + k == BLOCK then 0 else n % BLOCK + k
  {
  }

  /** The bit counter modulo 2^64 still tells how full the buffer is. */
  lemma UsedSpace(n: nat)
    ensures (8 * n % TWO64) / 8 % BLOCK == n % BLOCK
  {
    var q := 8 * n / TWO64;
    assert 8 * n == TWO64 * q + 8 * n % TWO64;
    assert (8 * n % TWO64) / 8 == n - TWO64 / 8 * q;
    assert n == (n - TWO64 / 8 * q) + BLOCK * (TWO64 / 512 * q);
  }

  lemma BitcountAdd(n: nat, k: nat)
    ensures (8 * n % TWO64 + 8 * k) % TWO64 == 8 * (n + k) % TWO64
  {
  }

  /** The last block, when the length still fits behind the first padding byte. */
  lemma PadInOne(m: seq<Byte>)
    requires |m| % BLOCK < SHORT_BLOCK
    ensures var last := Tail(m) + [0x80] + Zeros(SHORT_BLOCK - 1 - |m| % BLOCK) + LengthBytes(8 * |m| % TWO64);
            && |last| == BLOCK
            && HashBlocks(H0, Padded(m)) == Compress(HashBlocks(H0, Whole(m)), last)
  {
    hide LengthBytes;
    var last := Tail(m) + [0x80] + Zeros(SHORT_BLOCK - 1 - |m| % BLOCK) + LengthBytes(8 * |m| % TWO64);
    assert ZeroCount(|m|) == SHORT_BLOCK - 1 - |m| % BLOCK;
    assert Padded(m) == Whole(m) + last;
    HashOneMore(H0, Whole(m), last);
  }

  /** The last two blocks, when it does not. */
  lemma PadInTwo(m: seq<Byte>)
    requires |m| % BLOCK >= SHORT_BLOCK
    ensures var first := Tail(m) + [0x80] + Zeros(BLOCK - 1 - |m| % BLOCK);
            var last := Zeros(SHORT_BLOCK) + LengthBytes(8 * |m| % TWO64);
            && |first| == BLOCK && |last| == BLOCK
            && HashBlocks(H0, Padded(m)) == Compress(Compress(HashBlocks(H0, Whole(m)), first), last)
  {
    hide LengthBytes, Compress;
    var n := |m| % BLOCK;
    var first := Tail(m) + [0x80] + Zeros(BLOCK - 1 - n);
    var last := Zeros(SHORT_BLOCK) + LengthBytes(8 * |m| % TWO64);
    assert ZeroCount(|m|) == 119 - n;
    assert Zeros(119 - n) == Zeros(BLOCK - 1 - n) + Zeros(SHORT_BLOCK);
    assert Padded(m) == Whole(m) + first + last;
    HashOneMore(H0, Whole(m), first);
    HashOneMore(H0, Whole(m) + first, last);
  }

  method Store(buffer: array<Byte>, at: nat, src: seq<Byte>)
    requires at + |src| <= buffer.Length
    modifies buffer
    ensures buffer[..] == old(buffer[..at]) + src + old(buffer[at + |src|..])
  {
    for i := 0 to |src|
      invariant buffer[..] == old(buffer[..at]) + src[..i] + old(buffer[at + i..])
    {
      buffer[at + i] := src[i];
    }
  }

  /** SHA256_CTX; `msg` is everything passed to Update so far. */
  class Context {
    var state: Hash
    var bitcount: nat
    const buffer: array<Byte>
    ghost var msg: seq<Byte>

    ghost predicate Valid()
      reads this, buffer
    {
      && buffer.Length == BLOCK
      && bitcount == 8 * |msg| % TWO64
      && state == HashBlocks(H0, Whole(msg))
      && buffer[..|msg| % BLOCK] == Tail(msg)
    }

    constructor Init()
      ensures Valid() && msg == [] && fresh(buffer)
    {
      state, bitcount, msg := H0, 0, [];
      buffer := new Byte[BLOCK](_ => 0);
    }

    /** Fills the rest of the buffer, hashes it and empties it. */
    method FillBuffer(used: nat, x: seq<Byte>)
      requires Valid() && 0 < used == |msg| % BLOCK && used + |x| == BLOCK
      modifies this, buffer
      ensures Valid() && msg == old(msg) + x
    {
      hide HashBlocks, Compress;
      AppendFull(msg, x);
      BitcountAdd(|msg|, |x|);
      Store(buffer, used, x);
      assert buffer[..] == Tail(msg) + x;
      bitcount := (bitcount + 8 * |x|) % TWO64;
      state := Transform(state, buffer[..]);
      msg := msg + x;
      assert Whole(msg) == msg && Tail(msg) == [];
    }

    /** Keeps bytes that do not complete a block. */
    method Keep(used: nat, x: seq<Byte>)
      requires Valid() && used == |msg| % BLOCK && used + |x| < BLOCK
      modifies this, buffer
      ensures Valid() && msg == old(msg) + x
    {
      hide HashBlocks;
      AppendShort(msg, x);
      BitcountAdd(|msg|, |x|);
      Store(buffer, used, x);
      bitcount := (bitcount + 8 * |x|) % TWO64;
      msg := msg + x;
    }

    /** Hashes one whole block straight from the input. */
    method OneBlock(x: seq<Byte>)
      requires Valid() && |msg| % BLOCK == 0 && |x| == BLOCK
      modifies this
      ensures Valid() && msg == old(msg) + x && |msg| % BLOCK == 0
    {
      hide HashBlocks, Compress;
      assert Whole(msg) == msg && Tail(msg) == [];
      HashOneMore(H0, msg, x);
      BitcountAdd(|msg|, BLOCK);
      state := Transform(state, x);
      bitcount := (bitcount + 8 * BLOCK) % TWO64;
      msg := msg + x;
      assert Whole(msg) == msg && Tail(msg) == [];
    }

    /** The counter tells how much is kept. */
    lemma UsedIs()
      requires Valid()
      ensures bitcount / 8 % BLOCK == |msg| % BLOCK
    {
      UsedSpace(|msg|);
    }

    /** Hashes whole blocks straight from the input, from `from` on. */
    method WholeBlocks(data: seq<Byte>, from: nat) returns (off: nat)
      requires Valid() && |msg| % BLOCK == 0 && from <= |data|
      modifies this
      ensures from <= off <= |data| < off + BLOCK
      ensures Valid() && msg == old(msg) + data[from..off] && |msg| % BLOCK == 0
    {
      hide Context.Valid;
      off := from;
      while |data| - off >= BLOCK
        invariant from <= off <= |data|
        invariant Valid() && msg == old(msg) + data[from..off] && |msg| % BLOCK == 0
      {
        OneBlock(data[off..off + BLOCK]);
        assert data[from..off] + data[off..off + BLOCK] == data[from..off + BLOCK];
        off := off + BLOCK;
      }
    }

    /** SHA256_Update: whatever the split into calls, the context stands for the bytes in order. */
    method Update(data: seq<Byte>)
      requires Valid()
      modifies this, buffer
      ensures Valid() && msg == old(msg) + data
    {
      hide Context.Valid;
      if data == [] {
        assert msg + data == msg;
        return;
      }
      UsedIs();
      var used := bitcount / 8 % BLOCK;
      var from := 0;
      if used > 0 {
        if |data| < BLOCK - used {
          Keep(used, data);
          return;
        }
        from := BLOCK - used;
        LengthMod(|msg|, from);
        FillBuffer(used, data[..from]);
      }
      assert msg == old(msg) + data[..from];
      var off := WholeBlocks(data, from);
      Keep(0, data[off..]);
      assert data[..from] + data[from..off] + data[off..] == data;
    }

    /** The length fits behind the first padding byte. */
    method PadShort(used: nat)
      requires Valid() && used == |msg| % BLOCK < SHORT_BLOCK
      modifies this, buffer
      ensures state == HashBlocks(H0, Padded(msg)) && msg == old(msg)
    {
      hide HashBlocks, Compress, Padded, LengthBytes, ShiftBytes;
      PadInOne(msg);
      ShiftBytesAreBigEndian(bitcount);
      Store(buffer, used, [0x80] + Zeros(SHORT_BLOCK - 1 - used));
      Store(buffer, SHORT_BLOCK, ShiftBytes(bitcount));
      assert buffer[..] == Tail(msg) + [0x80] + Zeros(SHORT_BLOCK - 1 - used) + LengthBytes(bitcount);
      state := Transform(state, buffer[..]);
    }

    /** It does not: one block of padding, then one with the length. */
    method PadLong(used: nat)
      requires Valid() && used == |msg| % BLOCK && SHORT_BLOCK <= used
      modifies this, buffer
      ensures state == HashBlocks(H0, Padded(msg)) && msg == old(msg)
    {
      hide HashBlocks, Compress, Padded, LengthBytes, ShiftBytes;
      PadInTwo(msg);
      ShiftBytesAreBigEndian(bitcount);
      Store(buffer, used, [0x80] + Zeros(BLOCK - 1 - used));
      assert buffer[..] == Tail(msg) + [0x80] + Zeros(BLOCK - 1 - used);
      state := Transform(state, buffer[..]);
      Store(buffer, 0, Zeros(SHORT_BLOCK));
      Store(buffer, SHORT_BLOCK, ShiftBytes(bitcount));
      assert buffer[..] == Zeros(SHORT_BLOCK) + LengthBytes(bitcount);
      state := Transform(state, buffer[..]);
    }

    /** SHA256_Pad: one or two more blocks. */
    method Pad()
      requires Valid()
      modifies this, buffer
      ensures state == HashBlocks(H0, Padded(msg)) && msg == old(msg)
    {
      hide HashBlocks, Padded;
      UsedSpace(|msg|);
      var used := bitcount / 8 % BLOCK;
      if used < SHORT_BLOCK { PadShort(used); } else { PadLong(used); }
    }

    /** SHA256_Final: the digest of everything passed in, and a wiped context. */
    method Final() returns (digest: seq<Byte>)
      requires Valid()
      modifies this, buffer
      ensures digest == Sha(old(msg))
      ensures state == Hash(0, 0, 0, 0, 0, 0, 0, 0) && bitcount == 0 && buffer[..] == Zeros(BLOCK)
    {
      hide HashBlocks, Padded, Digest;
      Pad();
      digest := Digest(state);
      state, bitcount := Hash(0, 0, 0, 0, 0, 0, 0, 0), 0;
      Store(buffer, 0, Zeros(BLOCK));
    }
  }

  function Concat(chunks: seq<seq<Byte>>): seq<Byte> {
    if chunks == [] then [] else Concat(chunks[..|chunks| - 1]) + chunks[|chunks| - 1]
  }

  /** Every way of splitting a message into Update calls gives the digest of the padded message. */
  method HashChunks(chunks: seq<seq<Byte>>) returns (digest: seq<Byte>)
    ensures digest == Sha(Concat(chunks))
  {
    hide Sha, HashBlocks;
    var ctx := new Context.Init();
    for i := 0 to |chunks|
      invariant ctx.Valid() && ctx.msg == Concat(chunks[..i]) && fresh(ctx) && fresh(ctx.buffer)
    {
      ctx.Update(chunks[i]);
      assert chunks[..i + 1][..i] == chunks[..i];
    }
    assert chunks[..|chunks|] == chunks;
    digest := ctx.Final();
  }
}
