/** Fixed-width unsigned arithmetic, spelled out on unbounded integers. */
module Words {
  const TWO_32 := 0x1_0000_0000
  const TWO_64 := 0x1_0000_0000_0000_0000

  type uint32 = x: int | 0 <= x < TWO_32

  datatype Option<+T> = None | Some(value: T)

  function Pow2(n: nat): (r: nat)
    ensures r > 0
  {
    if n == 0 then 1 else 2 * Pow2(n - 1)
  }

  lemma {:induction false} Pow2Sum(a: nat, b: nat)
    ensures Pow2(a + b) == Pow2(a) * Pow2(b)
  {
    if a > 0 {
      Pow2Sum(a - 1, b);
      DoubleProduct(Pow2(a - 1), Pow2(b));
    }
  }

  lemma DoubleProduct(m: nat, v: nat)
    ensures (2 * m) * v == 2 * (m * v)
  {
  }

  lemma Pow2Twice(n: nat, m: nat, v: nat)
    requires Pow2(n) == v && m == n + n
    ensures Pow2(m) == v * v
  {
    Pow2Sum(n, n);
  }

  /** The number of values of a word, for a width that is 64. */
  lemma Width64(bits: nat)
    requires bits == 64
    ensures Pow2(bits) == TWO_64
  {
    var (a, b, c) := (bits / 2, bits / 4, bits / 8);
    assert Pow2(c) == 0x100;
    Pow2Twice(c, b, 0x100);
    Pow2Twice(b, a, 0x1_0000);
    Pow2Twice(a, bits, TWO_32);
  }

  /** The cast to uint32_t. */
  function Low32(n: nat): uint32 {
    n % TWO_32
  }

  lemma Low32Small(n: nat)
    ensures n < TWO_32 <==> Low32(n) == n
  {
  }

  /** Addition modulo 2^32. */
  function Add32(a: uint32, b: uint32): uint32 {
    if a + b < TWO_32 then a + b else a + b - TWO_32
  }

  /** Subtraction modulo 2^32. */
  function Sub32(a: uint32, b: uint32): uint32 {
    if b <= a then a - b else a - b + TWO_32
  }

  lemma Low32Next(n: nat)
    ensures (Low32(n) + 1) % TWO_32 == (n + 1) % TWO_32
  {
  }

  lemma Low32Repeats(n: nat)
    ensures Low32(n + TWO_32) == Low32(n)
  {
  }

  /** Subtraction modulo 2^64, of uint64 words. */
  function Sub64(a: nat, b: nat): int {
    if b <= a then a - b else a - b + TWO_64
  }

  lemma Sub64IsModular(a: nat, b: nat)
    requires a < TWO_64 && b < TWO_64
    ensures Sub64(a, b) == (a - b) % TWO_64
  {
  }

  lemma AddAndSubtractAreModular(a: uint32, b: uint32)
    ensures Add32(a, b) == (a + b) % TWO_32 && Sub32(a, b) == (a - b) % TWO_32
  {
  }

  lemma ModSuccessor(a: nat)
    ensures (a + 1) % TWO_32 == Add32(a % TWO_32, 1)
  {
  }

  /** k decrements of a uint32 counter. */
  function Minus32(a: uint32, k: nat): uint32
    decreases k
  {
    if k == 0 then a else Sub32(Minus32(a, k - 1), 1)
  }

  /** k increments of a uint32 counter. */
  function Plus32(a: uint32, k: nat): uint32
    decreases k
  {
    if k == 0 then a else Add32(Plus32(a, k - 1), 1)
  }

  lemma OneMoreOrLess(x: int)
    ensures Add32(x % TWO_32, 1) == (x + 1) % TWO_32
    ensures Sub32(x % TWO_32, 1) == (x - 1) % TWO_32
  {
  }

  lemma {:induction false} PlusIsModular(a: uint32, k: nat)
    ensures Plus32(a, k) == (a + k) % TWO_32
  {
    if k > 0 {
      PlusIsModular(a, k - 1);
      OneMoreOrLess(a + (k - 1));
    }
  }

  lemma {:induction false} MinusIsModular(a: uint32, k: nat)
    ensures Minus32(a, k) == (a - k) % TWO_32
  {
    if k > 0 {
      MinusIsModular(a, k - 1);
      OneMoreOrLess(a - (k - 1));
    }
  }

  /**
   The operator a % m for a variable m, by repeated subtraction; RemIsPercent says that it is
   that operator.
   */
  function Rem(a: nat, m: nat): (r: nat)
    requires m > 0
    ensures r < m
    decreases a
  {
    if a < m then a else Rem(a - m, m)
  }

  lemma ProductNonNegative(a: nat, b: nat)
    ensures a * b >= 0
  {
  }

  lemma ProductGap(a: int, b: int, m: nat)
    requires a < b
    ensures m * a + m <= m * b
  {
    ProductNonNegative(m, b - a - 1);
    assert m * (b - a - 1) == m * b - m * a - m;
  }

  /** The remainder is the only r below m that differs from x by a multiple of m. */
  lemma RemainderUnique(x: int, k: int, r: nat, m: nat)
    requires r < m && x == m * k + r
    ensures x % m == r
  {
    var q := x / m;
    assert x == m * q + x % m;
    if q < k { ProductGap(q, k, m); }
    if k < q { ProductGap(k, q, m); }
  }

  lemma QuotientUnique(x: int, q: int, r: nat, m: nat)
    requires r < m && x == m * q + r
    ensures x / m == q
  {
    RemainderUnique(x, q, r, m);
    var d := x / m;
    assert x == m * d + r;
    if d < q {
      ProductGap(d, q, m);
    } else if q < d {
      ProductGap(q, d, m);
    }
  }

  /** The k-th binary digit. */
  function Digit(v: nat, k: nat): (d: nat)
    ensures d < 2
    decreases k
  {
    if k == 0 then v % 2 else Digit(v / 2, k - 1)
  }

  lemma {:induction false} DigitIs(v: nat, k: nat)
    ensures Digit(v, k) == v / Pow2(k) % 2
    decreases k
  {
    if k > 0 {
      DigitIs(v / 2, k - 1);
      DivideTwice(v, Pow2(k - 1));
    } else {
      QuotientUnique(v, v, 0, 1);
    }
  }

  lemma DivideTwice(v: nat, m: nat)
    requires m > 0
    ensures v / (2 * m) == v / 2 / m
  {
    var (q, r) := (v / 2 / m, v / 2 % m);
    assert v / 2 == m * q + r;
    assert v == (2 * m) * q + (2 * r + v % 2);
    QuotientUnique(v, q, 2 * r + v % 2, 2 * m);
  }

  lemma PercentSubtract(a: nat, m: nat)
    requires 0 < m <= a
    ensures a % m == (a - m) % m
  {
    var q, r := (a - m) / m, (a - m) % m;
    assert a - m == m * q + r;
    assert m * (q + 1) == m * q + m;
    RemainderUnique(a, q + 1, r, m);
  }

  lemma {:induction false} RemIsPercent(a: nat, m: nat)
    requires m > 0
    ensures Rem(a, m) == a % m
    decreases a
  {
    if a < m {
      RemainderUnique(a, 0, a, m);
    } else {
      RemIsPercent(a - m, m);
      PercentSubtract(a, m);
    }
  }

  lemma {:induction false} SameRem(a: nat, b: nat, m: nat)
    requires 0 < m && a <= b
    ensures Rem(a, m) == Rem(b, m) <==> Rem(b - a, m) == 0
    decreases b
  {
    if b - a >= m {
      SameRem(a, b - m, m);
    } else if a >= m {
      SameRem(a - m, b - m, m);
    }
  }
}
