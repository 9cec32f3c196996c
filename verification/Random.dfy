/** The xorshift128+ generator of as_random.h, on the 64 bits of each seed. */
module Random {
  import opened Words
  import opened Orbits

  const BITS := 64

  /** A uint64_t as its bits, lowest first. */
  type Word = w: seq<bool> | |w| == BITS witness seq(BITS, i => false)

  function Xor(a: Word, b: Word): Word {
    seq(BITS, i requires 0 <= i < BITS => a[i] != b[i])
  }

  function ShiftLeft(a: Word, k: nat): Word {
    seq(BITS, i requires 0 <= i < BITS => i >= k && a[i - k])
  }

  function ShiftRight(a: Word, k: nat): Word {
    seq(BITS, i requires 0 <= i < BITS => i + k < BITS && a[i + k])
  }

  const ZERO: Word := seq(BITS, i => false)

  function Value(bits: seq<bool>): nat {
    if bits == [] then 0 else (if bits[0] then 1 else 0) + 2 * Value(bits[1..])
  }

  // -------------------------------------------------------- the bits as numbers

  /** Bit k of a word is the k-th binary digit of its value. */
  lemma {:induction false} ValueDigits(a: seq<bool>, k: nat)
    requires k < |a|
    ensures a[k] <==> Digit(Value(a), k) == 1
    decreases k
  {
    FirstDigit(Value(a), Value(a[1..]), if a[0] then 1 else 0);
    if k > 0 { ValueDigits(a[1..], k - 1); }
  }

  lemma FirstDigit(v: nat, rest: nat, digit: nat)
    requires v == digit + 2 * rest && digit < 2
    ensures v / 2 == rest && v % 2 == digit
  {
  }

  lemma {:induction false} ValueConcat(a: seq<bool>, b: seq<bool>)
    ensures Value(a + b) == Value(a) + Pow2(|a|) * Value(b)
    decreases |a|
  {
    if a == [] {
      assert a + b == b;
    } else {
      assert (a + b)[1..] == a[1..] + b;
      ValueConcat(a[1..], b);
      DoubleProduct(Pow2(|a| - 1), Value(b));
    }
  }

  lemma {:induction false} ValueBound(a: seq<bool>)
    ensures Value(a) < Pow2(|a|)
  {
    if a != [] { ValueBound(a[1..]); }
  }

  function Zeros(n: nat): (z: seq<bool>)
    ensures |z| == n && forall i :: 0 <= i < n ==> !z[i]
  {
    if n == 0 then [] else [false] + Zeros(n - 1)
  }

  lemma {:induction false} ZerosValue(n: nat)
    ensures Value(Zeros(n)) == 0
  {
    if n > 0 { ZerosValue(n - 1); }
  }

  /** The shift right divides by 2^k. */
  lemma ShiftRightDivides(a: Word, k: nat)
    requires k <= BITS
    ensures Value(ShiftRight(a, k)) == Value(a) / Pow2(k)
  {
    var (low, high) := (a[..k], a[k..]);
    assert ShiftRight(a, k) == high + Zeros(k);
    ValueConcat(high, Zeros(k));
    ZerosValue(k);
    assert a == low + high;
    ValueConcat(low, high);
    ValueBound(low);
    QuotientUnique(Value(a), Value(high), Value(low), Pow2(k));
  }

  /** The shift left multiplies by 2^k and drops what does not fit 64 bits. */
  lemma ShiftLeftMultiplies(a: Word, k: nat)
    requires k <= BITS
    ensures Value(ShiftLeft(a, k)) == Value(a) * Pow2(k) % TWO_64
  {
    var (low, high) := (a[..BITS - k], a[BITS - k..]);
    assert ShiftLeft(a, k) == Zeros(k) + low;
    ValueConcat(Zeros(k), low);
    ZerosValue(k);
    assert a == low + high;
    ValueConcat(low, high);
    ValueBound(ShiftLeft(a, k));
    Pow2Sum(BITS - k, k);
    Carried(Value(low), Value(high), Pow2(BITS - k), Pow2(k));
    Width64(BITS - k + k);
    RemainderUnique(Value(a) * Pow2(k), Value(high), Value(ShiftLeft(a, k)), TWO_64);
  }

  lemma Carried(low: nat, high: nat, p: nat, q: nat)
    ensures (low + p * high) * q == (p * q) * high + q * low
  {
  }

  /** A digit of an exclusive or is set exactly when the two digits differ. */
  lemma XorDigits(a: Word, b: Word, k: nat)
    requires k < BITS
    ensures Digit(Value(Xor(a, b)), k) == 1 <==> Digit(Value(a), k) != Digit(Value(b), k)
  {
    ValueDigits(a, k);
    ValueDigits(b, k);
    ValueDigits(Xor(a, b), k);
    assert Xor(a, b)[k] == (a[k] != b[k]);
  }

  // -------------------------------------------------------------------- the step

  datatype Seeds = Seeds(seed0: Word, seed1: Word)

  function XorLeft(a: Word): Word { Xor(a, ShiftLeft(a, 23)) }

  function Step(s: Seeds): Seeds {
    var s1 := XorLeft(s.seed0);
    Seeds(s.seed1, Xor(Xor(Xor(s1, s.seed1), ShiftRight(s1, 18)), ShiftRight(s.seed1, 5)))
  }

  /** The new second seed bit by bit: x is the old first seed mixed with itself 23 bits up. */
  lemma StepBits(s: Seeds, i: nat)
    requires i < BITS
    ensures
      var x := (j: nat) requires j < BITS => s.seed0[j] != (j >= 23 && s.seed0[j - 23]);
      Step(s).seed0 == s.seed1
      && (Step(s).seed1[i]
          <==> (((x(i) != s.seed1[i]) != (i + 18 < BITS && x(i + 18))) != (i + 5 < BITS && s.seed1[i + 5])))
  {
  }

  /** Undo x ^= x >> 18. */
  function UndoRight(t: Word): Word {
    Xor(Xor(t, ShiftRight(t, 18)), Xor(ShiftRight(t, 36), ShiftRight(t, 54)))
  }

  /** Undo x ^= x << 23. */
  function UndoLeft(u: Word): Word {
    Xor(Xor(u, ShiftLeft(u, 23)), ShiftLeft(u, 46))
  }

  function StepBack(s: Seeds): Seeds {
    var t := Xor(Xor(s.seed1, s.seed0), ShiftRight(s.seed0, 5));
    Seeds(UndoLeft(UndoRight(t)), s.seed0)
  }

  // ----------------------------------------------------------------- reversibility

  lemma LeftInverse(x: Word)
    ensures UndoLeft(XorLeft(x)) == x && XorLeft(UndoLeft(x)) == x
  {
  }

  lemma RightInverse(x: Word)
    ensures UndoRight(Xor(x, ShiftRight(x, 18))) == x
    ensures Xor(UndoRight(x), ShiftRight(UndoRight(x), 18)) == x
  {
  }

  lemma XorCancels(a: Word, b: Word, c: Word, d: Word)
    ensures Xor(Xor(Xor(Xor(Xor(a, b), c), d), b), d) == Xor(a, c)
  {
  }

  lemma XorRestores(a: Word, b: Word, c: Word, d: Word, t: Word)
    requires Xor(a, c) == Xor(Xor(t, b), d)
    ensures Xor(Xor(Xor(a, b), c), d) == t
  {
    forall i | 0 <= i < BITS ensures Xor(Xor(Xor(a, b), c), d)[i] == t[i] {
      assert Xor(a, c)[i] == Xor(Xor(t, b), d)[i];
    }
  }

  /** The step is a bijection on the 128 bits of state, and StepBack is its inverse. */
  lemma StepIsBijection(s: Seeds)
    ensures StepBack(Step(s)) == s && Step(StepBack(s)) == s
  {
    var s1 := XorLeft(s.seed0);
    XorCancels(s1, s.seed1, ShiftRight(s1, 18), ShiftRight(s.seed1, 5));
    RightInverse(s1);
    LeftInverse(s.seed0);

    var t := Xor(Xor(s.seed1, s.seed0), ShiftRight(s.seed0, 5));
    var u := UndoRight(t);
    RightInverse(t);
    LeftInverse(u);
    XorRestores(u, s.seed0, ShiftRight(u, 18), ShiftRight(s.seed0, 5), s.seed1);
  }

  lemma StepsInvert()
    ensures Inverts(StepBack, Step) && Inverts(Step, StepBack)
  {
    forall s ensures StepBack(Step(s)) == s && Step(StepBack(s)) == s { StepIsBijection(s); }
  }

  /** A run of any length can be taken back, from either end. */
  lemma RunReverses(s: Seeds, n: nat)
    ensures Iterate(StepBack, Iterate(Step, s, n), n) == s
    ensures Iterate(Step, Iterate(StepBack, s, n), n) == s
  {
    StepsInvert();
    IterateReverses(Step, StepBack, s, n);
    IterateReverses(StepBack, Step, s, n);
  }

  const ALL_ZERO := Seeds(ZERO, ZERO)

  lemma ZeroSticks()
    ensures Step(ALL_ZERO) == ALL_ZERO
  {
  }

  /** The all-zero state, in which the generator sticks, is reached only from itself. */
  lemma NeverZero(s: Seeds, n: nat)
    ensures Iterate(Step, s, n) == ALL_ZERO <==> s == ALL_ZERO
  {
    ZeroSticks();
    FixedPointStays(Step, ALL_ZERO, n);
    RunReverses(s, n);
    RunReverses(ALL_ZERO, n);
  }

  // ------------------------------------------------------------------ periodicity

  lemma {:induction false} ValueIsCode(a: seq<bool>, b: seq<bool>)
    requires |a| == |b|
    ensures Value(a) < Pow2(|a|)
    ensures Value(a) == Value(b) ==> a == b
  {
    if a != [] {
      ValueIsCode(a[1..], b[1..]);
      if Value(a) == Value(b) {
        assert a[0] == b[0];
        assert a == [a[0]] + a[1..] && b == [b[0]] + b[1..];
      }
    }
  }

  /** The state as a number below 2^128. */
  function Number(s: Seeds): nat { Value(s.seed0 + s.seed1) }

  lemma NumberIsCode(s: Seeds, t: Seeds)
    ensures Number(s) < Pow2(2 * BITS)
    ensures Number(s) == Number(t) ==> s == t
  {
    ValueIsCode(s.seed0 + s.seed1, t.seed0 + t.seed1);
    if Number(s) == Number(t) {
      assert s.seed0 == (s.seed0 + s.seed1)[..BITS] == (t.seed0 + t.seed1)[..BITS] == t.seed0;
      assert s.seed1 == (s.seed0 + s.seed1)[BITS..] == (t.seed0 + t.seed1)[BITS..] == t.seed1;
    }
  }

  /** The generator runs in cycles: from every seed it comes back to that seed within 2^128 steps. */
  lemma ReturnsToSeed(s: Seeds) returns (period: nat)
    ensures 1 <= period <= Pow2(2 * BITS) && Iterate(Step, s, period) == s
  {
    StepsInvert();
    forall s, t ensures Number(s) < Pow2(2 * BITS) && (Number(s) == Number(t) ==> s == t) { NumberIsCode(s, t); }
    period := ReturnsToStart(Step, StepBack, Number, Pow2(2 * BITS), s);
  }

  /** The sum of two words, as a uint64. */
  function Sum(a: Word, b: Word): int {
    var sum := Value(a) + Value(b);
    if sum < TWO_64 then sum else sum - TWO_64
  }

  lemma SumIsModular(a: Word, b: Word)
    ensures Sum(a, b) == (Value(a) + Value(b)) % TWO_64
  {
    Width64(|a|);
    ValueBound(a);
    ValueBound(b);
  }

  // ------------------------------------------------------------------- the code

  class Generator {
    var seed0: Word
    var seed1: Word

    function Abs(): Seeds reads this { Seeds(seed0, seed1) }

    /** The seeds' part of as_random_next_uint64. */
    method Advance()
      modifies this
      ensures Abs() == Step(old(Abs())) && StepBack(Abs()) == old(Abs())
      ensures seed0 == old(seed1)
    {
      StepIsBijection(Abs());
      var s1 := seed0;
      var s0 := seed1;
      seed0 := s0;
      s1 := Xor(s1, ShiftLeft(s1, 23));
      seed1 := Xor(Xor(Xor(s1, s0), ShiftRight(s1, 18)), ShiftRight(s0, 5));
    }

    /** The sum as a uint64. */
    method Add(a: Word, b: Word) returns (r: int)
      ensures var sum := Value(a) + Value(b);
              0 <= r < TWO_64 && (r == sum || r == sum - TWO_64)
    {
      SumIsModular(a, b);
      r := Sum(a, b);
    }

    /** as_random_next_uint64: both seeds after the step, added as uint64; and the step can be taken back. */
    method NextUint64() returns (r: int)
      modifies this
      ensures Abs() == Step(old(Abs())) && StepBack(Abs()) == old(Abs()) && seed0 == old(seed1)
      ensures var sum := Value(seed0) + Value(seed1);
              0 <= r < TWO_64 && (r == sum || r == sum - TWO_64)
    {
      Advance();
      r := Add(seed0, seed1);
    }
  }
}
