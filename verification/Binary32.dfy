/** Rounding to binary32, `f32` of the source: 24 significant bits, to nearest, ties to even.
    The exponent is not bounded. */
module Binary32 {

  const LOW := 8388608
  const HIGH := 16777216

  /** A number times a power of two. */
  function Scaled(x: real, e: int): real
    decreases if e < 0 then -e else e
  {
    if e == 0 then x else if e > 0 then 2.0 * Scaled(x, e - 1) else Scaled(x, e + 1) / 2.0
  }

  lemma ScaledStep(x: real, e: int)
    ensures Scaled(x, e + 1) == 2.0 * Scaled(x, e)
  {
  }

  lemma {:induction false} ScaledAdds(x: real, a: int, b: int)
    ensures Scaled(Scaled(x, a), b) == Scaled(x, a + b)
    decreases if b < 0 then -b else b
  {
    if b > 0 {
      ScaledAdds(x, a, b - 1);
      ScaledStep(x, a + b - 1);
    } else if b < 0 {
      ScaledAdds(x, a, b + 1);
      ScaledStep(x, a + b);
    }
  }

  lemma {:induction false} ScaledMonotone(x: real, y: real, e: int)
    ensures x <= y <==> Scaled(x, e) <= Scaled(y, e)
    ensures x < y <==> Scaled(x, e) < Scaled(y, e)
    decreases if e < 0 then -e else e
  {
    if e > 0 {
      ScaledMonotone(x, y, e - 1);
    } else if e < 0 {
      ScaledMonotone(x, y, e + 1);
    }
  }

  lemma {:induction false} ScaledZero(e: int)
    ensures Scaled(0.0, e) == 0.0
    decreases if e < 0 then -e else e
  {
    if e > 0 {
      ScaledZero(e - 1);
    } else if e < 0 {
      ScaledZero(e + 1);
    }
  }

  lemma {:induction false} ScaledDifference(x: real, y: real, e: int)
    ensures Scaled(x - y, e) == Scaled(x, e) - Scaled(y, e)
    decreases if e < 0 then -e else e
  {
    if e > 0 {
      ScaledDifference(x, y, e - 1);
    } else if e < 0 {
      ScaledDifference(x, y, e + 1);
    }
  }

  lemma DoubledFactor(x: real, y: real)
    ensures x * (2.0 * y) == 2.0 * (x * y) && x * (y / 2.0) == (x * y) / 2.0
  {
  }

  lemma {:induction false} ScaledFactor(x: real, y: real, e: int)
    ensures x * Scaled(y, e) == Scaled(x * y, e)
    decreases if e < 0 then -e else e
  {
    if e > 0 {
      ScaledFactor(x, y, e - 1);
      DoubledFactor(x, Scaled(y, e - 1));
    } else if e < 0 {
      ScaledFactor(x, y, e + 1);
      DoubledFactor(x, Scaled(y, e + 1));
    }
  }

  lemma ScaledBack(x: real, e: int)
    ensures Scaled(Scaled(x, e), -e) == x && Scaled(Scaled(x, -e), e) == x
  {
    ScaledAdds(x, e, -e);
    ScaledAdds(x, -e, e);
  }

  lemma TimesMonotone(a: real, b: real, c: real)
    requires a <= b && c >= 0.0
    ensures a * c <= b * c
  {
  }

  lemma QuotientTimes(a: real, b: real)
    requires b > 0.0
    ensures (a / b) * b == a
  {
  }

  lemma HalvesReciprocal(x: real)
    requires 0.0 < x < 8388608.0
    ensures (16777216.0 / (2.0 * x)).Floor < (16777216.0 / x).Floor
  {
    var y := 16777216.0 / x;
    assert 16777216.0 / (2.0 * x) == y / 2.0;
    QuotientTimes(16777216.0, x);
    if y <= 2.0 {
      TimesMonotone(y, 2.0, x);
      assert false;
    }
  }

  predicate InBinade(x: real, e: int) {
    8388608.0 <= Scaled(x, -e) < 16777216.0
  }

  /** The unit in the last place, as a power of two. */
  function Exponent(x: real): (e: int)
    requires x > 0.0
    ensures InBinade(x, e)
    decreases x < 8388608.0, if x >= 8388608.0 then x.Floor else (16777216.0 / x).Floor
  {
    if x >= 16777216.0 then
      var e := Exponent(x / 2.0);
      ScaledAdds(x, -1, -e);
      e + 1
    else if x < 8388608.0 then
      HalvesReciprocal(x);
      var e := Exponent(2.0 * x);
      ScaledAdds(x, 1, -e);
      e - 1
    else 0
  }

  function NearestEven(x: real): int {
    var n := x.Floor;
    var rest := x - n as real;
    if rest < 0.5 || (rest == 0.5 && n % 2 == 0) then n else n + 1
  }

  lemma NearestEvenMonotone(x: real, y: real)
    requires x <= y
    ensures NearestEven(x) <= NearestEven(y)
  {
  }

  /** The nearest multiple of a power of two. */
  function OnGrid(x: real, e: int): real {
    Scaled(NearestEven(Scaled(x, -e)) as real, e)
  }

  /** The nearest value with 24 significant bits. */
  function Nearest(x: real): real {
    if x == 0.0 then 0.0
    else if x > 0.0 then OnGrid(x, Exponent(x))
    else -OnGrid(-x, Exponent(-x))
  }

  // ---- What rounding does ----

  lemma {:induction false} ScaledUp(y: real, k: nat)
    requires y >= 0.0 && k >= 1
    ensures Scaled(y, k) >= 2.0 * y
    decreases k
  {
    if k > 1 {
      ScaledUp(y, k - 1);
    }
  }

  lemma BinadesAreApart(x: real, e: int, f: int)
    requires InBinade(x, f) && e < f
    ensures Scaled(x, -e) >= 16777216.0
  {
    ScaledAdds(x, -f, f - e);
    ScaledUp(Scaled(x, -f), f - e);
  }

  lemma ExponentIs(x: real, e: int)
    requires x > 0.0 && InBinade(x, e)
    ensures Exponent(x) == e
  {
    var f := Exponent(x);
    if f < e {
      BinadesAreApart(x, f, e);
    } else if e < f {
      BinadesAreApart(x, e, f);
    }
  }

  lemma PositiveScaled(x: real, e: int)
    ensures x > 0.0 <==> Scaled(x, e) > 0.0
  {
    ScaledZero(e);
    ScaledMonotone(0.0, x, e);
  }

  /** Rounding on the grid of a binade, either end included. */
  lemma NearestOnGrid(x: real, e: int)
    requires 8388608.0 <= Scaled(x, -e) <= 16777216.0
    ensures Nearest(x) == OnGrid(x, e)
  {
    PositiveScaled(x, -e);
    if Scaled(x, -e) < 16777216.0 {
      ExponentIs(x, e);
    } else {
      ScaledStep(x, -e - 1);
      ExponentIs(x, e + 1);
      TopOfBinade(e);
    }
  }

  lemma TopOfBinade(e: int)
    ensures Scaled(NearestEven(8388608.0) as real, e + 1) == Scaled(NearestEven(16777216.0) as real, e)
  {
    assert NearestEven(8388608.0) == 8388608 && NearestEven(16777216.0) == 16777216;
    ScaledAdds(8388608.0, 1, e);
    assert Scaled(8388608.0, 1) == 16777216.0;
  }

  /** A whole number of units of a binade. */
  lemma GridIsKept(n: int, e: int)
    requires LOW <= n <= HIGH
    ensures Nearest(Scaled(n as real, e)) == Scaled(n as real, e)
  {
    ScaledBack(n as real, e);
    NearestOnGrid(Scaled(n as real, e), e);
  }

  lemma NearestInBinade(x: real) returns (n: int)
    requires x > 0.0
    ensures LOW <= n <= HIGH && Nearest(x) == Scaled(n as real, Exponent(x))
    ensures n == NearestEven(Scaled(x, -Exponent(x)))
  {
    var y := Scaled(x, -Exponent(x));
    n := NearestEven(y);
    NearestEvenMonotone(8388608.0, y);
    NearestEvenMonotone(y, 16777216.0);
  }

  /** Two roundings are the same as one. */
  lemma NearestIsKept(x: real)
    requires x > 0.0
    ensures Nearest(x) > 0.0 && Nearest(Nearest(x)) == Nearest(x)
  {
    var n := NearestInBinade(x);
    GridIsKept(n, Exponent(x));
    PositiveScaled(n as real, Exponent(x));
  }

  lemma NearestMonotone(x: real, y: real)
    requires 0.0 < x <= y
    ensures Nearest(x) <= Nearest(y)
  {
    var e, f := Exponent(x), Exponent(y);
    var m := NearestInBinade(x);
    var n := NearestInBinade(y);
    ScaledMonotone(x, y, -f);
    if e == f {
      NearestEvenMonotone(Scaled(x, -e), Scaled(y, -e));
      ScaledMonotone(m as real, n as real, e);
    } else if e < f {
      BinadesInOrder(m, e, n, f);
    } else {
      ScaledMonotone(x, y, -e);
      ScaledAdds(y, -e, e - f);
      ScaledUp(Scaled(y, -e), e - f);
    }
  }

  lemma BinadesInOrder(m: int, e: int, n: int, f: int)
    requires 0 <= m <= HIGH && n >= LOW && e < f
    ensures Scaled(m as real, e) <= Scaled(n as real, f)
  {
    ScaledAdds(n as real, f - e, e);
    ScaledUp(n as real, f - e);
    ScaledMonotone(m as real, Scaled(n as real, f - e), e);
  }

  lemma NearestIsNear(x: real)
    requires x > 0.0
    ensures -x <= 16777216.0 * (Nearest(x) - x) <= x
  {
    var e := Exponent(x);
    var y := Scaled(x, -e);
    var n := NearestInBinade(x);
    var gap := n as real - y;
    ScaledBack(x, e);
    ScaledDifference(n as real, y, e);
    assert -y <= 16777216.0 * gap <= y;
    ScaledFactor(16777216.0, gap, e);
    ScaledMonotone(16777216.0 * gap, y, e);
    ScaledMonotone(0.0 - y, 16777216.0 * gap, e);
    ScaledDifference(0.0, y, e);
    ScaledZero(e);
  }

  // ---- Values with 24 significant bits ----

  predicate IsFloat(x: real) {
    Nearest(x) == x
  }

  lemma FloatParts(x: real) returns (n: int, e: int)
    requires x > 0.0 && IsFloat(x)
    ensures LOW <= n < HIGH && x == Scaled(n as real, e)
  {
    n := NearestInBinade(x);
    e := Exponent(x);
    if n == HIGH {
      TopOfBinade(e);
      n, e := LOW, e + 1;
    }
  }

  lemma Scaled23(x: real)
    ensures Scaled(x, 23) == 8388608.0 * x && 8388608.0 * Scaled(x, -23) == x
  {
    Times23(x);
    Times23(Scaled(x, -23));
    ScaledBack(x, 23);
  }

  lemma Times23(x: real)
    ensures Scaled(x, 23) == 8388608.0 * x
  {
    forall y ensures Scaled(y, 4) == 16.0 * y {
      ScaledStep(y, 3);
      ScaledStep(y, 2);
      ScaledStep(y, 1);
    }
    ScaledAdds(x, 4, 4);
    ScaledAdds(x, 8, 4);
    ScaledAdds(x, 12, 4);
    ScaledAdds(x, 16, 4);
    ScaledStep(x, 20);
    ScaledStep(x, 21);
    ScaledStep(x, 22);
  }
}
