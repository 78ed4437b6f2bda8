/** Mixed int64/double comparison, map-key equality and hashing (src/value.h,
    `numbersEqualHelper`, `numbersLess`, `hashNumber`, `ValueKeyEqual`).

    A finite double is the real number it stands for; converting an int64 to a double
    rounds to the nearest multiple of the unit in the last place, ties to even. */
module Numbers {
  import opened Arithmetic

  const TWO53 := 9007199254740992
  const TWO52 := 4503599627370496
  const TWO63 := 9223372036854775808

  type int64 = n: int | -TWO63 <= n < TWO63

  // ---------------------------------------------------------------------------
  // Doubles
  // ---------------------------------------------------------------------------

  function Abs(n: int): nat {
    if n < 0 then -n else n
  }

  /** A 53-bit significand scaled by a power of two within the range of doubles. */
  ghost predicate Scaled(v: real, m: int, k: nat) {
    && Abs(m) < TWO53
    && ((k <= 971 && IsTimes(v, m, Pow2(k))) || (k <= 1074 && IsOver(v, m, Pow2(k))))
  }

  ghost predicate IsTimes(v: real, m: int, p: nat) {
    v == (m * p) as real
  }

  ghost predicate IsOver(v: real, m: int, p: nat) {
    v * p as real == m as real
  }

  ghost predicate Representable(v: real) {
    exists m, k :: Scaled(v, m, k)
  }

  datatype RawDouble = NaN | Inf(neg: bool) | NegZero | Fin(v: real)

  ghost predicate IsDouble(d: RawDouble) {
    d.Fin? ==> Representable(d.v)
  }

  type Double = d: RawDouble | IsDouble(d) ghost witness NaN

  predicate IsFinite(d: RawDouble) {
    d.NegZero? || d.Fin?
  }

  function RealOf(d: RawDouble): real
    requires IsFinite(d)
  {
    if d.Fin? then d.v else 0.0
  }

  /** IEEE 754 `<` and `==`. */
  predicate DoubleLess(a: RawDouble, b: RawDouble) {
    if a.NaN? || b.NaN? then false
    else if a.Inf? then a.neg && !(b.Inf? && b.neg)
    else if b.Inf? then !b.neg
    else RealOf(a) < RealOf(b)
  }

  predicate DoubleEqual(a: RawDouble, b: RawDouble) {
    if a.NaN? || b.NaN? then false
    else if a.Inf? || b.Inf? then a == b
    else RealOf(a) == RealOf(b)
  }

  /** isfinite(d) and d == trunc(d) and -2^63 <= d < 2^63. */
  predicate FitsInt64(d: RawDouble) {
    && IsFinite(d)
    && RealOf(d) == RealOf(d).Floor as real
    && -(TWO63 as real) <= RealOf(d) < TWO63 as real
  }

  function ToInt64(d: RawDouble): int64
    requires FitsInt64(d)
  {
    RealOf(d).Floor
  }

  // ---------------------------------------------------------------------------
  // Rounding
  // ---------------------------------------------------------------------------

  /** The unit in the last place of a 53-bit significand for `n`. */
  function Ulp(n: nat): (u: nat)
    ensures u >= 1
  {
    if n < TWO53 then 1 else 2 * Ulp(n / 2)
  }

  /** The multiple of `u` nearest to `n`, the even one of two. */
  function RoundTo(n: nat, u: nat): nat
    requires u >= 1
  {
    var q, r := n / u, n % u;
    if 2 * r < u || (2 * r == u && q % 2 == 0) then q * u else (q + 1) * u
  }

  function RoundNat(n: nat): nat {
    RoundTo(n, Ulp(n))
  }

  function Round(n: int): int {
    var r: int := RoundNat(Abs(n));
    if n < 0 then -r else r
  }

  lemma MulMono(a: int, b: int, c: int)
    requires a <= b && c >= 0
    ensures a * c <= b * c
  {
  }

  lemma MulStrict(a: int, b: int, c: int)
    requires a * c < b * c && c >= 0
    ensures a < b
  {
    if a >= b { MulMono(b, a, c); }
  }

  lemma DivMod(n: nat, u: nat)
    requires u >= 1
    ensures n == (n / u) * u + n % u && n % u < u
  {
  }

  lemma MultipleMod(q: int, u: nat)
    requires u >= 1 && q >= 0
    ensures (q * u) / u == q && (q * u) % u == 0
  {
    DivMod(q * u, u);
    var d := (q * u) / u;
    if d < q { MulMono(d + 1, q, u); }
    if d > q { MulMono(q + 1, d, u); }
  }

  /** Rounding lands on one of the two neighbouring multiples. */
  lemma RoundToBounds(n: nat, u: nat)
    requires u >= 1
    ensures (n / u) * u <= RoundTo(n, u) <= (n / u + 1) * u
    ensures RoundTo(n, u) == (n / u) * u || RoundTo(n, u) == (n / u + 1) * u
    ensures n % u == 0 ==> RoundTo(n, u) == n
  {
    DivMod(n, u);
  }

  lemma DivMono(n: nat, m: nat, u: nat)
    requires n <= m && u >= 1
    ensures n / u <= m / u
  {
    DivMod(n, u);
    DivMod(m, u);
    if n / u > m / u { MulMono(m / u + 1, n / u, u); }
  }

  lemma RoundToMonotone(n: nat, m: nat, u: nat)
    requires n <= m && u >= 1
    ensures RoundTo(n, u) <= RoundTo(m, u)
  {
    RoundToBounds(n, u);
    RoundToBounds(m, u);
    DivMod(n, u);
    DivMod(m, u);
    DivMono(n, m, u);
    if n / u < m / u {
      MulMono(n / u + 1, m / u, u);
    } else {
      assert n % u <= m % u;
    }
  }

  /** `n` has at most 53 bits above its unit, and exactly 53 once it needs them. */
  lemma {:induction false} UlpBounds(n: nat)
    ensures n < TWO53 * Ulp(n)
    ensures n >= TWO53 ==> n >= TWO52 * Ulp(n)
    decreases n
  {
    if n >= TWO53 {
      UlpBounds(n / 2);
    }
  }

  lemma {:induction false} UlpMonotone(n: nat, m: nat)
    requires n <= m
    ensures Ulp(n) <= Ulp(m)
    ensures Ulp(n) < Ulp(m) ==> 2 * Ulp(n) <= Ulp(m)
    decreases m
  {
    if n >= TWO53 {
      UlpMonotone(n / 2, m / 2);
    }
  }

  /** Converting to double never reverses an order. */
  lemma RoundNatMonotone(n: nat, m: nat)
    requires n <= m
    ensures RoundNat(n) <= RoundNat(m)
  {
    var u, w := Ulp(n), Ulp(m);
    UlpMonotone(n, m);
    UlpBounds(n);
    UlpBounds(m);
    if u == w {
      RoundToMonotone(n, m, u);
    } else {
      RoundToBounds(n, u);
      RoundToBounds(m, w);
      DivMod(n, u);
      DivMod(m, w);
      MulStrict(n / u, TWO53, u);
      MulMono(n / u + 1, TWO53, u);
      assert m >= TWO52 * w && m < TWO53 * w;
      MulStrict(TWO52 - 1, m / w, w);
      MulMono(TWO52, m / w, w);
      assert RoundNat(n) <= TWO53 * u <= TWO52 * w <= RoundNat(m);
    }
  }

  lemma RoundMonotone(n: int, m: int)
    requires n <= m
    ensures Round(n) <= Round(m)
  {
    if n >= 0 {
      RoundNatMonotone(n, m);
    } else if m < 0 {
      RoundNatMonotone(-m, -n);
    }
  }

  // ---------------------------------------------------------------------------
  // Which integers are doubles
  // ---------------------------------------------------------------------------

  lemma {:induction false} Pow2Mono(j: nat, k: nat)
    requires j <= k
    ensures Pow2(j) <= Pow2(k)
  {
    if j < k { Pow2Mono(j, k - 1); }
  }

  /** The unit is a power of two. */
  lemma {:induction false} UlpIsPow2(n: nat) returns (j: nat)
    ensures Ulp(n) == Pow2(j)
    decreases n
  {
    j := 0;
    if n >= TWO53 {
      j := UlpIsPow2(n / 2);
      j := j + 1;
    }
  }

  /** A 53-bit significand cannot reach far above its exponent. */
  lemma TooSmall(a: nat, k: nat, j: nat)
    requires a < TWO53 && j > k
    ensures a * Pow2(k) < TWO52 * Pow2(j)
  {
    Pow2Mono(k + 1, j);
    assert Pow2(k + 1) == 2 * Pow2(k);
    MulMono(a + 1, TWO53, Pow2(k));
    MulMono(2 * Pow2(k), Pow2(j), TWO52);
  }

  lemma MultipleIsExact(q: nat, u: nat)
    requires u >= 1
    ensures RoundTo(q * u, u) == q * u
  {
    MultipleMod(q, u);
    RoundToBounds(q * u, u);
  }

  /** A 53-bit significand times a power of two is not changed by rounding. */
  lemma ScaledIsExact(a: nat, k: nat)
    requires a < TWO53
    ensures RoundNat(a * Pow2(k)) == a * Pow2(k)
  {
    var n := a * Pow2(k);
    var j := UlpIsPow2(n);
    UlpBounds(n);
    if n < TWO53 {
      MultipleIsExact(n, 1);
    } else {
      if j > k { TooSmall(a, k, j); }
      PowSum(k - j, j);
      var q := a * Pow2(k - j);
      MulAssoc(a, Pow2(k - j), Pow2(j));
      MultipleIsExact(q, Pow2(j));
    }
  }

  lemma MulAssoc(a: int, b: int, c: int)
    ensures a * (b * c) == (a * b) * c
  {
  }

  lemma SignOfProduct(m: int, p: int)
    requires p >= 1
    ensures Abs(m * p) == Abs(m) * p && (m * p < 0 <==> m < 0)
  {
  }

  lemma CastProduct(n: int, p: int, m: int)
    requires n as real * p as real == m as real
    ensures n * p == m
  {
    assert (n * p) as real == n as real * p as real;
  }

  /** An integer that is a double converts to itself. */
  lemma RepresentableIsExact(n: int)
    requires Representable(n as real)
    ensures Round(n) == n
  {
    var m, k :| Scaled(n as real, m, k);
    ScaledInteger(n, m, k);
    if n == m * Pow2(k) {
      SignOfProduct(m, Pow2(k));
      ScaledIsExact(Abs(m), k);
    } else {
      SignOfProduct(n, Pow2(k));
      MulMono(1, Pow2(k), Abs(n));
      SmallIsExact(Abs(n));
    }
  }

  lemma ScaledInteger(n: int, m: int, k: nat)
    requires Scaled(n as real, m, k)
    ensures Abs(m) < TWO53 && (n == m * Pow2(k) || n * Pow2(k) == m)
  {
    if IsTimes(n as real, m, Pow2(k)) {
      TimesInteger(n, m, Pow2(k));
    } else {
      OverInteger(n, m, Pow2(k));
    }
  }

  lemma TimesInteger(n: int, m: int, p: nat)
    requires IsTimes(n as real, m, p)
    ensures n == m * p
  {
  }

  lemma OverInteger(n: int, m: int, p: nat)
    requires IsOver(n as real, m, p)
    ensures n * p == m
  {
    CastProduct(n, p, m);
  }

  lemma SmallIsExact(n: nat)
    requires n <= TWO53
    ensures RoundNat(n) == n
  {
    assert Pow2(0) == 1 && Pow2(1) == 2;
    if n < TWO53 { ScaledIsExact(n, 0); } else { ScaledIsExact(TWO52, 1); }
  }

  lemma Pow2Of63()
    ensures Pow2(63) == TWO63
  {
    assert Pow2(7) == 128;
    PowSum(7, 7);
    PowSum(14, 7);
    PowSum(21, 21);
    PowSum(21, 42);
  }

  lemma SmallExponent(a: nat, j: nat)
    requires a <= TWO63 && a >= TWO52 * Pow2(j)
    ensures j <= 11
  {
    assert Pow2(12) == 4096;
    if j > 11 {
      Pow2Mono(12, j);
    }
  }

  /** Rounding gives a 53-bit significand and a small exponent. */
  lemma RoundForm(a: nat) returns (q: nat, j: nat)
    requires a <= TWO63
    ensures RoundNat(a) == q * Pow2(j) && q < TWO53 && j <= 12
  {
    j := UlpIsPow2(a);
    var u := Pow2(j);
    UlpBounds(a);
    RoundToBounds(a, u);
    DivMod(a, u);
    MulStrict(a / u, TWO53, u);
    q := if RoundNat(a) == (a / u) * u then a / u else a / u + 1;
    if a >= TWO53 {
      SmallExponent(a, j);
    } else {
      UlpOfSmall(a, j);
    }
    if q == TWO53 {
      PowSum(1, j);
      q, j := TWO52, j + 1;
    }
  }

  lemma UlpOfSmall(a: nat, j: nat)
    requires a < TWO53 && Ulp(a) == Pow2(j)
    ensures j == 0
  {
  }

  lemma ScaledWitness(n: int, q: nat, j: nat)
    requires RoundNat(Abs(n)) == q * Pow2(j) && q < TWO53 && j <= 971
    ensures Representable(Round(n) as real)
  {
    var m: int := q;
    if n < 0 { m := -m; }
    SignOfProduct(m, Pow2(j));
    assert IsTimes((m * Pow2(j)) as real, m, Pow2(j));
    assert Scaled((m * Pow2(j)) as real, m, j);
  }

  /** What an int64 converts to is a double. */
  lemma RoundIsRepresentable(n: int64)
    ensures Representable(Round(n) as real)
    ensures -TWO63 <= Round(n) <= TWO63
  {
    var q, j := RoundForm(Abs(n));
    ScaledWitness(n, q, j);
    RoundNatMonotone(Abs(n), TWO63);
    Pow2Of63();
    ScaledIsExact(1, 63);
  }

  /** static_cast<double>. */
  function FromInt(n: int64): Double {
    RoundIsRepresentable(n);
    Fin(Round(n) as real)
  }

  // ---------------------------------------------------------------------------
  // The source's comparisons
  // ---------------------------------------------------------------------------

  datatype Num = I(n: int64) | D(d: Double)

  /** numbersLess. */
  predicate NumbersLess(a: Num, b: Num) {
    match (a, b)
    case (I(x), I(y)) => x < y
    case (D(x), D(y)) => DoubleLess(x, y)
    case (I(i), D(d)) =>
      if d.NaN? then false
      else if FitsInt64(d) then i < ToInt64(d)
      else DoubleLess(FromInt(i), d)
    case (D(d), I(i)) =>
      if d.NaN? then false
      else if FitsInt64(d) then ToInt64(d) < i
      else DoubleLess(d, FromInt(i))
  }

  /** numbersEqualHelper. */
  predicate NumbersEqual(a: Num, b: Num, nanEq: bool) {
    match (a, b)
    case (I(x), I(y)) => x == y
    case (D(x), D(y)) => (nanEq && x.NaN? && y.NaN?) || DoubleEqual(x, y)
    case (I(i), D(d)) => if nanEq && d.NaN? then false else FitsInt64(d) && i == ToInt64(d)
    case (D(d), I(i)) => if nanEq && d.NaN? then false else FitsInt64(d) && i == ToInt64(d)
  }

  /** ValueKeyEqual on numbers. */
  predicate KeyEqual(a: Num, b: Num) {
    NumbersEqual(a, b, true)
  }

  /** hashNumber; `hd` and `hi` are the standard library's hashes of doubles and int64s. */
  function HashNumber(hd: RawDouble -> nat, hi: int -> nat, a: Num): nat {
    match a
    case I(n) =>
      var d := FromInt(n);
      if FitsInt64(d) && ToInt64(d) == n then hd(d) else hi(n)
    case D(d) =>
      if d.NaN? then 0
      else if DoubleEqual(d, Fin(0.0)) then hd(Fin(0.0))
      else hd(d)
  }

  // ---------------------------------------------------------------------------
  // What they decide
  // ---------------------------------------------------------------------------

  /** The number a value stands for: signed zeros are one number, and so are an int and
      the double equal to it. */
  datatype Extended = NotANumber | MinusInfinity | PlusInfinity | Real(v: real)

  function Meaning(a: Num): Extended {
    match a
    case I(n) => Real(n as real)
    case D(d) =>
      match d
      case NaN => NotANumber
      case Inf(neg) => if neg then MinusInfinity else PlusInfinity
      case NegZero => Real(0.0)
      case Fin(v) => Real(v)
  }

  /** The exact order of the extended reals; nothing is ordered with NaN. */
  predicate ExactLess(x: Extended, y: Extended) {
    match (x, y)
    case (NotANumber, _) => false
    case (_, NotANumber) => false
    case (MinusInfinity, _) => y != MinusInfinity
    case (_, PlusInfinity) => x != PlusInfinity
    case (Real(v), Real(w)) => v < w
    case _ => false
  }

  /** A double with a fractional part is below 2^53 in magnitude. */
  lemma FractionIsSmall(v: real)
    requires Representable(v) && v != v.Floor as real
    ensures -(TWO53 as real) < v < TWO53 as real
  {
    var m, k :| Scaled(v, m, k);
    if !IsTimes(v, m, Pow2(k)) {
      OverIsSmall(v, m, Pow2(k));
    }
  }

  lemma OverIsSmall(v: real, m: int, p: nat)
    requires IsOver(v, m, p) && p >= 1 && Abs(m) < TWO53
    ensures -(TWO53 as real) < v < TWO53 as real
  {
    var q := p as real;
    if v >= TWO53 as real {
      RealMulMono(TWO53 as real, v, q);
      RealMulMono(1.0, q, TWO53 as real);
    } else if v <= -(TWO53 as real) {
      RealMulMono(v, -(TWO53 as real), q);
      RealMulMono(1.0, q, TWO53 as real);
    }
  }

  lemma RealMulMono(a: real, b: real, c: real)
    requires a <= b && c >= 0.0
    ensures a * c <= b * c
  {
  }

  /** Against a double with a fractional part, rounding the int does not matter. */
  lemma RoundAgainstFraction(i: int64, v: real)
    requires -(TWO53 as real) < v < TWO53 as real
    ensures (i as real < v <==> Round(i) as real < v) && (v < i as real <==> v < Round(i) as real)
  {
    if Abs(i) <= TWO53 {
      SmallIsExact(Abs(i));
    } else if i > 0 {
      SmallIsExact(TWO53);
      RoundMonotone(TWO53, i);
    } else {
      SmallIsExact(TWO53);
      RoundMonotone(i, -TWO53);
    }
  }

  /** The ints that round up to 2^63. */
  lemma RoundsUpToTwo63(i: int64)
    ensures Round(i) == TWO63 <==> i >= TWO63 - 512
  {
    var h := TWO63 - 512;
    UlpOfHalf();
    DivMod(h, 1024);
    DivMod(h - 1, 1024);
    RoundIsRepresentable(i);
    if i >= h {
      RoundNatMonotone(h, i);
    } else if i >= 0 {
      RoundNatMonotone(i, h - 1);
    }
  }

  /** Just below 2^63 the unit is 1024, and 2^63 - 512 is a tie that goes up. */
  lemma UlpOfHalf()
    ensures RoundNat(TWO63 - 512) == TWO63 && RoundNat(TWO63 - 513) == TWO63 - 1024
  {
    UlpHalves(TWO63 - 512, 10);
    UlpHalves(TWO63 - 513, 10);
    assert Pow2(10) == 1024;
    assert (TWO63 - 512) / 1024 == TWO53 - 1 && (TWO63 - 512) % 1024 == 512;
    assert (TWO63 - 513) / 1024 == TWO53 - 1 && (TWO63 - 513) % 1024 == 511;
  }

  lemma {:induction false} UlpHalves(n: nat, k: nat)
    requires TWO52 * Pow2(k) <= n < TWO53 * Pow2(k)
    ensures Ulp(n) == Pow2(k)
    decreases k
  {
    if k > 0 {
      assert Pow2(k) == 2 * Pow2(k - 1);
      UlpHalves(n / 2, k - 1);
    }
  }

  /** numbersLess decides the exact order, except that an int that rounds up to 2^63 is
      not found to be below the double 2^63. */
  lemma NumbersLessIsExact(a: Num, b: Num)
    ensures NumbersLess(a, b) <==>
              ExactLess(Meaning(a), Meaning(b)) &&
              !(a.I? && b.D? && b.d == Fin(TWO63 as real) && a.n >= TWO63 - 512)
  {
    match (a, b)
    case (I(_), I(_)) =>
    case (D(_), D(_)) =>
    case (I(i), D(d)) => LessMixed(i, d);
    case (D(d), I(i)) => LessMixed(i, d);
  }

  /** The exception is real: the largest int64 is below the double 2^63, and not found to be. */
  lemma LargestIntAgainstTwo63()
    ensures Representable(TWO63 as real)
    ensures var two63: Double := Fin(TWO63 as real);
            && ExactLess(Meaning(I(TWO63 - 1)), Meaning(D(two63)))
            && !NumbersLess(I(TWO63 - 1), D(two63))
  {
    Pow2Of63();
    assert IsTimes(TWO63 as real, 1, Pow2(63));
    assert Scaled(TWO63 as real, 1, 63);
    LessMixed(TWO63 - 1, Fin(TWO63 as real));
  }

  lemma LessMixed(i: int64, d: Double)
    ensures NumbersLess(I(i), D(d)) <==>
              ExactLess(Meaning(I(i)), Meaning(D(d))) && !(d == Fin(TWO63 as real) && i >= TWO63 - 512)
    ensures NumbersLess(D(d), I(i)) <==> ExactLess(Meaning(D(d)), Meaning(I(i)))
  {
    RoundIsRepresentable(i);
    if d.Fin? && !FitsInt64(d) {
      if d.v != d.v.Floor as real {
        FractionIsSmall(d.v);
        RoundAgainstFraction(i, d.v);
      } else {
        RoundsUpToTwo63(i);
      }
    }
  }

  /** Map-key equality is equality of the numbers meant, so it is an equivalence. */
  lemma KeyEqualIsExact(a: Num, b: Num)
    ensures KeyEqual(a, b) <==> Meaning(a) == Meaning(b)
  {
  }

  /** The == of a program is equality of the numbers meant too, except that NaN is equal to
      nothing. */
  lemma UserEqualIsExact(a: Num, b: Num)
    ensures NumbersEqual(a, b, false) <==> Meaning(a) == Meaning(b) && Meaning(a) != NotANumber
  {
  }

  lemma KeyEqualIsEquivalence(a: Num, b: Num, c: Num)
    ensures KeyEqual(a, a)
    ensures KeyEqual(a, b) ==> KeyEqual(b, a)
    ensures KeyEqual(a, b) && KeyEqual(b, c) ==> KeyEqual(a, c)
  {
    KeyEqualIsExact(a, a);
    KeyEqualIsExact(a, b);
    KeyEqualIsExact(b, a);
    KeyEqualIsExact(b, c);
    KeyEqualIsExact(a, c);
  }

  /** Equal keys hash equal, whatever the underlying hashes are. */
  lemma EqualKeysHashEqual(hd: RawDouble -> nat, hi: int -> nat, a: Num, b: Num)
    requires KeyEqual(a, b)
    ensures HashNumber(hd, hi, a) == HashNumber(hd, hi, b)
  {
    KeyEqualIsExact(a, b);
    if a.I? && b.D? { IntHashesAsDouble(hd, hi, a.n, b.d); }
    if a.D? && b.I? { IntHashesAsDouble(hd, hi, b.n, a.d); }
  }

  lemma IntHashesAsDouble(hd: RawDouble -> nat, hi: int -> nat, n: int64, d: Double)
    requires Meaning(I(n)) == Meaning(D(d))
    ensures HashNumber(hd, hi, I(n)) == HashNumber(hd, hi, D(d))
  {
    if d.Fin? {
      RepresentableIsExact(n);
    } else {
      SmallIsExact(0);
    }
  }

  lemma IntIsRepresentable(n: int64)
    ensures FitsInt64(FromInt(n)) && ToInt64(FromInt(n)) == n <==> Representable(n as real)
  {
    RoundIsRepresentable(n);
    if Representable(n as real) { RepresentableIsExact(n); }
  }

  /** The hash depends on the number meant alone: that of its double if it has one, 0 for
      NaN, and that of the int only where no double is equal to it. */
  lemma HashOfMeaning(hd: RawDouble -> nat, hi: int -> nat, a: Num)
    ensures HashNumber(hd, hi, a) ==
            match Meaning(a)
            case NotANumber => 0
            case MinusInfinity => hd(Inf(true))
            case PlusInfinity => hd(Inf(false))
            case Real(v) => if Representable(v) then hd(Fin(v)) else hi(v.Floor)
  {
    match a
    case I(n) =>
      IntIsRepresentable(n);
      assert (n as real).Floor == n;
    case D(_) => assert Scaled(0.0, 0, 0);
  }
}
