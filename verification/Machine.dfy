// Integer widths of the 32-bit target, and the stock result types.
module Machine {
  const TWO_16 := 0x1_0000
  const TWO_32 := 0x1_0000_0000

  type Byte = b: int | 0 <= b < 256
  type Half = h: int | 0 <= h < TWO_16
  type Word = w: int | 0 <= w < TWO_32

  datatype Option<+T> = None | Some(value: T)

  // (x + 3) & ~3 in 32-bit unsigned arithmetic.
  function AlignUp4(x: Word): Word {
    (x + 3) % TWO_32 / 4 * 4
  }

  // x rounded up to a multiple of 4096, in 32-bit unsigned arithmetic.
  function PageRoundUp(x: Word): Word {
    (x + 0xFFF) % TWO_32 / 4096 * 4096
  }

  // The value a 32-bit signed register holds after an operation with result x.
  function Wrap32(x: int): (r: int)
    ensures -0x8000_0000 <= r < 0x8000_0000
    ensures -0x8000_0000 <= x < 0x8000_0000 ==> r == x
  {
    (x + 0x8000_0000) % TWO_32 - 0x8000_0000
  }

  // The register keeps the low 32 bits, whatever the result.
  lemma WrapKeepsLowBits(x: int)
    ensures (x - Wrap32(x)) % 0x1_0000_0000 == 0
  {
    var q := (x + 0x8000_0000) / TWO_32;
    assert x - Wrap32(x) == TWO_32 * q;
    MultipleOf32(q);
  }

  lemma MultipleOf32(q: int)
    ensures (TWO_32 * q) % TWO_32 == 0
  {
  }

  // Two numbers in range that differ by a multiple of 2^32 are the same.
  lemma WrapIsUnique(x: int, r: int, q: int)
    requires -0x8000_0000 <= r < 0x8000_0000 && x == r + TWO_32 * q
    ensures Wrap32(x) == r
  {
    assert x + 0x8000_0000 == (r + 0x8000_0000) + TWO_32 * q;
  }

  // C division and remainder: the quotient is truncated toward zero.
  function TruncDiv(a: int, b: int): int
    requires b != 0
  {
    if a >= 0 then (if b > 0 then a / b else -(a / -b))
    else if b > 0 then -(-a / b) else -a / -b
  }

  function TruncMod(a: int, b: int): int
    requires b != 0
  {
    a - b * TruncDiv(a, b)
  }

  // The quotient times the divisor and the remainder make up the dividend; the
  // remainder is smaller than the divisor and has the sign of the dividend.
  lemma TruncExactly(a: int, b: int)
    requires b != 0
    ensures a == b * TruncDiv(a, b) + TruncMod(a, b)
    ensures -Magnitude(b) < TruncMod(a, b) < Magnitude(b)
    ensures (a >= 0 ==> TruncMod(a, b) >= 0) && (a <= 0 ==> TruncMod(a, b) <= 0)
  {
    var d := Magnitude(b);
    var q := Magnitude(a) / d;
    EuclidExactly(Magnitude(a), d);
    NegatedProduct(d, q);
    if b < 0 { assert b == -d; }
  }

  function Magnitude(x: int): int { if x >= 0 then x else -x }

  lemma NegatedProduct(d: int, q: int)
    ensures (-d) * q == -(d * q) == d * -q && (-d) * -q == d * q
  {
  }

  lemma EuclidExactly(m: int, d: int)
    requires m >= 0 && d > 0
    ensures 0 <= m - d * (m / d) < d
  {
  }

  lemma {:induction false} SubsetSize<T>(a: set<T>, b: set<T>)
    requires a <= b
    ensures |a| <= |b|
  {
    if a != {} {
      var x :| x in a;
      SubsetSize(a - {x}, b - {x});
    }
  }
}
