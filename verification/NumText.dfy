/** Number text: the digit scanner of lib/strto.c and the size text of cmd/mtdparts.c. */
module NumText {
  import opened Base

  /** An unsigned 64-bit value; arithmetic that wraps says so with `% TWO64`. */
  type u64 = x: nat | x < 0x1_0000_0000_0000_0000

  const KB: nat := 0x400
  const MB: nat := 0x10_0000
  const GB: nat := 0x4000_0000

  /** A scanned number and the text behind it. */
  datatype Num = Num(value: u64, rest: string)

  /** The character a C pointer at the head of `s` reads: NUL at the end of the string. */
  function Head(s: string): char {
    if s == "" then '\0' else s[0]
  }

  /** The value of a hexadecimal digit, and 16 for every other character. */
  function DigitValue(c: char): nat {
    if '0' <= c <= '9' then c as int - '0' as int
    else if 'a' <= c <= 'f' then c as int - 'a' as int + 10
    else if 'A' <= c <= 'F' then c as int - 'A' as int + 10
    else 16
  }

  /** Base detection for base 0: octal behind "0", hexadecimal behind "0x" and a digit, else decimal. */
  function Radix(s: string): nat {
    if Head(s) != '0' then 10
    else if |s| > 2 && (s[1] == 'x' || s[1] == 'X') && DigitValue(s[2]) < 16 then 16
    else 8
  }

  /** The text at which digits start once the base is known. */
  function SkipRadix(s: string): string {
    if Radix(s) == 16 then s[2..] else s
  }

  /** Accumulates digits of `base`, wrapping at 64 bits. */
  function ScanDigits(s: string, base: nat, acc: u64): Num {
    if s != "" && DigitValue(s[0]) < base
    then ScanDigits(s[1..], base, (acc * base + DigitValue(s[0])) % TWO64)
    else Num(acc, s)
  }

  /** What simple_strtoull with base 0 returns, and where it stops. */
  function Strtoull(s: string): Num {
    ScanDigits(SkipRadix(s), Radix(s), 0)
  }

  lemma {:induction false} ScanDigitsStops(s: string, base: nat, acc: u64)
    ensures var n := ScanDigits(s, base, acc);
            |n.rest| <= |s| && n.rest == s[|s| - |n.rest|..]
    ensures var n := ScanDigits(s, base, acc); n.rest == "" || DigitValue(n.rest[0]) >= base
    decreases s
  {
    if s != "" && DigitValue(s[0]) < base {
      ScanDigitsStops(s[1..], base, (acc * base + DigitValue(s[0])) % TWO64);
    }
  }

  /** The digit loop, with a character index in place of the pointer. */
  method SimpleStrtoull(s: string, p: nat) returns (value: u64, q: nat)
    requires p <= |s|
    ensures p <= q <= |s|
    ensures Num(value, s[q..]) == Strtoull(s[p..])
  {
    var base := Radix(s[p..]);
    assert base == 16 ==> |s[p..]| > 2;
    q := if base == 16 then p + 2 else p;
    value := 0;
    assert s[q..] == SkipRadix(s[p..]);
    while q < |s| && DigitValue(s[q]) < base
      invariant p <= q <= |s|
      invariant ScanDigits(s[q..], base, value) == Strtoull(s[p..])
    {
      assert s[q..][1..] == s[q + 1..];
      value := (value * base + DigitValue(s[q])) % TWO64;
      q := q + 1;
    }
  }

  /** How far a size suffix shifts: 10 bits for each of k, m and g. */
  function SuffixScale(c: char): nat {
    if c == 'g' || c == 'G' then GB
    else if c == 'm' || c == 'M' then MB
    else if c == 'k' || c == 'K' then KB
    else 1
  }

  /** A number scaled by an optional k/m/g suffix. */
  function MemsizeParse(s: string): Num {
    var n := Strtoull(s);
    var scale := SuffixScale(Head(n.rest));
    if scale == 1 then n else Num((n.value * scale) % TWO64, n.rest[1..])
  }

  lemma MemsizeParseShrinks(s: string)
    ensures |MemsizeParse(s).rest| <= |s|
  {
    ScanDigitsStops(SkipRadix(s), Radix(s), 0);
  }

  function Digit(d: nat): char
    requires d < 10
  {
    "0123456789"[d]
  }

  /** What "%llu" prints. */
  function Decimal(n: nat): string {
    if n < 10 then [Digit(n)] else Decimal(n / 10) + [Digit(n % 10)]
  }

  /** Size text: the largest of g, m, k that divides the size exactly. */
  function MemsizeFormat(size: u64): string {
    if size % GB == 0 then Decimal(size / GB) + "g"
    else if size % MB == 0 then Decimal(size / MB) + "m"
    else if size % KB == 0 then Decimal(size / KB) + "k"
    else Decimal(size)
  }

  lemma {:induction false} DecimalHead(n: nat)
    ensures Decimal(n) != "" && DigitValue(Decimal(n)[0]) < 10
    ensures Decimal(n)[0] == '0' <==> n == 0
  {
    if n >= 10 { DecimalHead(n / 10); }
  }

  lemma ScanOneDigit(d: nat, rest: string, acc: u64)
    requires d < 10 && acc * 10 + d < TWO64
    ensures ScanDigits([Digit(d)] + rest, 10, acc) == ScanDigits(rest, 10, acc * 10 + d)
  {
    assert DigitValue(Digit(d)) == d;
    assert ([Digit(d)] + rest)[1..] == rest;
  }

  /** Scanning printed digits leaves the scanner as if the number had been accumulated already. */
  lemma {:induction false} ScanDecimal(n: u64, rest: string)
    ensures ScanDigits(Decimal(n) + rest, 10, 0) == ScanDigits(rest, 10, n)
    decreases n
  {
    var d := Digit(n % 10);
    if n < 10 {
      assert Decimal(n) + rest == [d] + rest;
      ScanOneDigit(n, rest, 0);
    } else {
      assert Decimal(n) + rest == Decimal(n / 10) + ([d] + rest);
      ScanDecimal(n / 10, [d] + rest);
      ScanOneDigit(n % 10, rest, n / 10);
    }
  }

  /** Base 0 scanning of printed digits: decimal, or a lone octal zero. */
  lemma StrtoullDecimal(n: u64, rest: string)
    requires n == 0 ==> rest != "" && DigitValue(rest[0]) >= 10 && rest[0] != 'x' && rest[0] != 'X'
    ensures Strtoull(Decimal(n) + rest) == ScanDigits(rest, 10, n)
  {
    DecimalHead(n);
    var s := Decimal(n) + rest;
    assert s[0] == Decimal(n)[0];
    if n == 0 {
      assert s[1..] == rest;
      assert Strtoull(s) == ScanDigits(s, 8, 0) == ScanDigits(rest, 8, 0);
    } else {
      ScanDecimal(n, rest);
    }
  }

  /** A character that would be read as part of the number in front of it. */
  predicate Extends(c: char) {
    '0' <= c <= '9' || SuffixScale(c) != 1
  }

  lemma ScaledRoundTrip(n: u64, suffix: char, rest: string)
    requires SuffixScale(suffix) != 1
    requires n * SuffixScale(suffix) < TWO64
    ensures MemsizeParse(Decimal(n) + [suffix] + rest) == Num(n * SuffixScale(suffix), rest)
  {
    assert Decimal(n) + [suffix] + rest == Decimal(n) + ([suffix] + rest);
    assert ([suffix] + rest)[1..] == rest;
    StrtoullDecimal(n, [suffix] + rest);
  }

  /**
    Size text reads back as the same size, and stops right behind it, exactly when it ended in a
    suffix or the text behind it does not begin with a digit or a suffix letter.
   */
  lemma MemsizeRoundTrip(size: u64, rest: string)
    ensures MemsizeParse(MemsizeFormat(size) + rest) == Num(size, rest)
       <==> size % KB == 0 || !Extends(Head(rest))
  {
    UnitsNest(size);
    if size % GB == 0 {
      ScaledRoundTrip(size / GB, 'g', rest);
    } else if size % MB == 0 {
      ScaledRoundTrip(size / MB, 'm', rest);
    } else if size % KB == 0 {
      ScaledRoundTrip(size / KB, 'k', rest);
    } else {
      BareRoundTrip(size, rest);
    }
  }

  lemma UnitsNest(size: u64)
    ensures size % GB == 0 ==> size % KB == 0 && size / GB * GB == size
    ensures size % MB == 0 ==> size % KB == 0 && size / MB * MB == size
    ensures size % KB == 0 ==> size / KB * KB == size
  {
    if size % GB == 0 { MultipleOfKb(size, size / GB * 0x10_0000); }
    if size % MB == 0 { MultipleOfKb(size, size / MB * 0x400); }
  }

  lemma MultipleOfKb(size: u64, q: nat)
    requires size == q * KB
    ensures size % KB == 0
  {
  }

  lemma BareRoundTrip(size: u64, rest: string)
    requires size != 0
    ensures MemsizeParse(Decimal(size) + rest) == Num(size, rest) <==> !Extends(Head(rest))
  {
    StrtoullDecimal(size, rest);
    if rest != "" && '0' <= rest[0] <= '9' {
      var acc := (size * 10 + DigitValue(rest[0])) % TWO64;
      ScanDigitsStops(rest[1..], 10, acc);
      assert |MemsizeParse(Decimal(size) + rest).rest| < |rest|;
    }
  }
}
