/** What the models share: optional values, bytes, word sizes and division. */
module Base {

  datatype Option<+T> = None | Some(value: T)

  type Byte = x: nat | x < 256

  const TWO32: nat := 0x1_0000_0000
  const TWO63: nat := 0x8000_0000_0000_0000
  const TWO64: nat := 0x1_0000_0000_0000_0000

  /** Quotient and remainder are unique. */
  lemma DivIs(n: nat, d: nat, q: nat, r: nat)
    requires d > 0 && n == d * q + r && r < d
    ensures n / d == q && n % d == r
  {
    var k := n / d - q;
    assert d * k == r - n % d;
    if k != 0 { Multiples(d, k); }
  }

  lemma Multiples(d: int, k: int)
    requires d > 0 && k != 0
    ensures d * k >= d || d * k <= -d
  {
  }
}
