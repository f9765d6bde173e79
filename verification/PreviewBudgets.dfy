/** Which pixel budgets hold in binary32: an exact check of the budget alone. */
module PreviewBudgets {
  import opened Wrappers
  import opened Binary32
  import opened Previews

  // ---- The check ----

  /** Half the gap between neighbours, in the units of a product of two significands. */
  const HALF_GAP := 4194304

  /** Whether a longest edge with significand `edge` makes a budget with significand `units`
      one unit too large: the quotient is rounded up, by so much that the product is too. */
  predicate OvershootsAt(units: int, edge: int)
    requires LOW <= edge <= units
  {
    var excess := ((units - edge) * (edge - LOW)) % edge;
    && (2 * excess < edge || (2 * excess == edge && (units * LOW / edge) % 2 == 1))
    && (excess > HALF_GAP || (excess == HALF_GAP && units % 2 == 1))
  }

  predicate Overshoots(units: int) {
    exists edge | LOW <= edge <= units :: OvershootsAt(units, edge)
  }

  /** The gap between neighbouring values around a whole number. */
  function Spacing(m: nat): (gap: nat)
    ensures gap >= 1
  {
    if m < HIGH then 1 else 2 * Spacing(m / 2)
  }

  predicate RoundsUp(a: nat, b: nat)
    requires b >= 1
  {
    2 * (a % b) > b || (2 * (a % b) == b && (a / b) % 2 == 1)
  }

  /** Small budgets hold; larger ones hold when they are not rounded up themselves and their
      significand does not overshoot. The largest 32-bit budget holds whatever is cast to it. */
  predicate SafeBudget(maxPx: nat) {
    1 <= maxPx &&
    (maxPx <= MAX_SAFE_PX || maxPx == U32_LIMIT - 1 ||
     (if maxPx < LOW then !Overshoots(2 * maxPx)
      else !RoundsUp(maxPx, Spacing(maxPx)) && !Overshoots(maxPx / Spacing(maxPx))))
  }

  // ---- Whole-number quotients ----

  lemma ModIs(a: int, b: int, q: int, r: int)
    requires b > 0 && a == q * b + r && 0 <= r < b
    ensures a % b == r && a / b == q
  {
    var q2, r2 := a / b, a % b;
    assert a == q2 * b + r2;
    MultiplesAreApart(q - q2, b);
    assert (q - q2) * b == r2 - r;
  }

  lemma MultiplesAreApart(k: int, b: int)
    requires b > 0
    ensures k >= 1 ==> k * b >= b
    ensures k <= -1 ==> k * b <= -b
  {
  }

  /** Rounding a quotient, in whole numbers. */
  lemma NearestQuotient(a: nat, b: nat, y: real)
    requires b >= 1 && y * b as real == a as real
    ensures NearestEven(y) == if RoundsUp(a, b) then a / b + 1 else a / b
  {
    var n, r := a / b, a % b;
    var rest := y - n as real;
    assert a == n * b + r;
    assert rest * b as real == r as real;
    RestIs(rest, r, b);
    assert y.Floor == n;
  }

  lemma RestIs(rest: real, r: int, b: int)
    requires b >= 1 && 0 <= r < b && rest * b as real == r as real
    ensures 0.0 <= rest < 1.0
    ensures (rest < 0.5 <==> 2 * r < b) && (rest == 0.5 <==> 2 * r == b)
  {
    AgainstHalves(rest, b as real, r as real);
  }

  lemma AgainstHalves(rest: real, w: real, size: real)
    requires w > 0.0 && rest * w == size && 0.0 <= size < w
    ensures 0.0 <= rest < 1.0
    ensures (rest < 0.5 <==> 2.0 * size < w) && (rest == 0.5 <==> 2.0 * size == w)
  {
    ProductsOrdered(rest, w, size, 0.0, 0.0);
    ProductsOrdered(rest, w, size, 0.5, w / 2.0);
    ProductsOrdered(rest, w, size, 1.0, w);
  }

  /** Factors are ordered like their products. */
  lemma ProductsOrdered(a: real, c: real, p: real, b: real, q: real)
    requires c > 0.0 && a * c == p && b * c == q
    ensures (a < b <==> p < q) && (a == b <==> p == q)
  {
    TimesOrdered(a, b, c);
  }

  lemma TimesOrdered(a: real, b: real, c: real)
    requires c > 0.0
    ensures (a < b <==> a * c < b * c) && (a == b <==> a * c == b * c)
  {
    if a < b {
      StrictlyMonotone(a, b, c);
    } else if b < a {
      StrictlyMonotone(b, a, c);
    }
  }

  lemma StrictlyMonotone(a: real, b: real, c: real)
    requires a < b && c > 0.0
    ensures a * c < b * c
  {
  }

  /** What a quotient rounded up exceeds, written with two small factors. */
  lemma ExcessIs(units: int, edge: int)
    requires LOW <= edge <= units < HIGH
    ensures var r, excess := units * LOW % edge, ((units - edge) * (edge - LOW)) % edge;
            excess == if r == 0 then 0 else edge - r
  {
    var n, r := units * LOW / edge, units * LOW % edge;
    var product := (units - edge) * (edge - LOW);
    assert units * LOW == n * edge + r;
    var k := units - edge + LOW - n;
    assert product == k * edge - r by {
      assert product == units * edge - units * LOW - edge * edge + edge * LOW;
      assert k * edge == units * edge - edge * edge + LOW * edge - n * edge;
    }
    if r == 0 {
      ModIs(product, edge, k, 0);
    } else {
      assert (k - 1) * edge == k * edge - edge;
      ModIs(product, edge, k - 1, edge - r);
    }
  }

  // ---- Scale and product of a longest edge ----

  lemma ProductIs(x: real, y: real, e: int, p: real)
    requires p == x * y
    ensures x * Scaled(y, e) == Scaled(p, e) && Scaled(y, e) * x == Scaled(p, e)
  {
    ScaledFactor(x, y, e);
  }

  lemma ProductScaled(x: real, e: int, y: real, t: int, p: real)
    requires p == x * y
    ensures Scaled(x, e) * Scaled(y, t) == Scaled(p, e + t)
  {
    ProductIs(y, x, e, p);
    ProductThenScaled(Scaled(x, e), y, t, p, e);
  }

  lemma ProductThenScaled(u: real, y: real, t: int, p: real, e: int)
    requires u * y == Scaled(p, e)
    ensures u * Scaled(y, t) == Scaled(p, e + t)
  {
    ProductIs(u, y, t, Scaled(p, e));
    ScaledAdds(p, e, t);
  }

  lemma QuotientScaled(x: real, f: int, y: real, t: int, q: real)
    requires y > 0.0 && q * y == x
    ensures Scaled(y, t) > 0.0 && Scaled(x, f) / Scaled(y, t) == Scaled(q, f - t)
  {
    PositiveScaled(y, t);
    ProductScaled(q, f - t, y, t, x);
    QuotientIs(Scaled(x, f), Scaled(y, t), Scaled(q, f - t));
  }

  lemma QuotientIs(a: real, b: real, q: real)
    requires b > 0.0 && q * b == a
    ensures a / b == q
  {
    QuotientTimes(a, b);
    ProductsOrdered(a / b, b, a, q, a);
  }

  /** Rounding a quotient of two significands. */
  lemma InUnits(m: nat, gap: nat, y: real)
    requires gap >= 1 && y * gap as real == m as real
    requires 8388608.0 * gap as real <= m as real <= 16777216.0 * gap as real
    ensures 8388608.0 <= y <= 16777216.0
  {
    var w := gap as real;
    ProductsOrdered(y, w, m as real, 8388608.0, 8388608.0 * w);
    ProductsOrdered(y, w, m as real, 16777216.0, 16777216.0 * w);
  }

  lemma QuotientOnGrid(q: real, g: int, edge: nat, size: nat, steps: int, y: real)
    requires 0 < edge && y == Scaled(q, steps) && y * edge as real == size as real
    requires 8388608.0 * edge as real <= size as real <= 16777216.0 * edge as real
    ensures Nearest(Scaled(q, g)) == Scaled(NearestEven(y) as real, g - steps)
  {
    ScaledAdds(q, g, steps - g);
    InUnits(size, edge, y);
    NearestOnGrid(Scaled(q, g), g - steps);
  }

  lemma TimesTwice(q: real, k: real, b: real, x: real)
    requires q * b == x
    ensures (k * q) * b == k * x
  {
  }

  /** The significand of a quotient, as a quotient of whole numbers. */
  lemma Significand(q: real, units: int, edge: int) returns (y: real)
    requires q * edge as real == units as real
    ensures y == Scaled(q, 23) && y * edge as real == (units * LOW) as real
  {
    Scaled23(q);
    TimesTwice(q, 8388608.0, edge as real, units as real);
    y := 8388608.0 * q;
  }

  /** The rounded scale, when the budget's significand is the larger one: a whole number. */
  lemma ScaleUnits(units: int, f: int, edge: int, t: int, longest: real) returns (c: int)
    requires LOW <= edge <= units < HIGH && longest == Scaled(edge as real, t) && longest > 0.0
    ensures Nearest(Scaled(units as real, f) / longest) == Scaled(c as real, f - t - 23)
    ensures c == if RoundsUp(units * LOW, edge) then units * LOW / edge + 1 else units * LOW / edge
  {
    var q := WholeQuotient(units, edge);
    QuotientScaled(units as real, f, edge as real, t, q);
    var y := Significand(q, units, edge);
    QuotientOnGrid(q, f - t, edge, units * LOW, 23, y);
    NearestQuotient(units * LOW, edge, y);
    c := NearestEven(y);
  }

  lemma WholeQuotient(a: int, b: int) returns (q: real)
    requires b > 0
    ensures q * b as real == a as real
  {
    q := a as real / b as real;
    QuotientTimes(a as real, b as real);
  }

  lemma NearestTimes(y: real, edge: int, size: real)
    requires edge > 0 && y * edge as real == size
    ensures NearestEven(y) as real * edge as real <= size + edge as real / 2.0
  {
    var c := NearestEven(y) as real;
    TimesMonotone(c, y + 0.5, edge as real);
    assert (y + 0.5) * edge as real == size + edge as real / 2.0;
  }

  lemma DoubleSignificand(q: real, units: int, edge: int) returns (y: real)
    requires q * edge as real == units as real
    ensures y == Scaled(q, 24) && y * edge as real == (units * HIGH) as real
  {
    var half := Significand(q, units, edge);
    ScaledStep(q, 23);
    TimesTwice(half, 2.0, edge as real, (units * LOW) as real);
    y := 2.0 * half;
  }

  /** ... and when the edge's is: the scale errs by at most half a unit. */
  lemma SmallScale(units: int, f: int, edge: int, t: int, longest: real) returns (c: real)
    requires LOW <= units < edge < HIGH && longest == Scaled(edge as real, t) && longest > 0.0
    ensures Nearest(Scaled(units as real, f) / longest) == Scaled(c, f - t - 24)
    ensures c * edge as real <= (units * HIGH) as real + edge as real / 2.0
  {
    var q := WholeQuotient(units, edge);
    QuotientScaled(units as real, f, edge as real, t, q);
    c := SmallSignificand(units, edge, q, f - t);
  }

  lemma SmallSignificand(units: int, edge: int, q: real, g: int) returns (c: real)
    requires LOW <= units < edge < HIGH && q * edge as real == units as real
    ensures Nearest(Scaled(q, g)) == Scaled(c, g - 24)
    ensures c * edge as real <= (units * HIGH) as real + edge as real / 2.0
  {
    var y := DoubleSignificand(q, units, edge);
    QuotientOnGrid(q, g, edge, units * HIGH, 24, y);
    NearestTimes(y, edge, (units * HIGH) as real);
    c := NearestEven(y) as real;
  }

  /** A product just below half a unit above the budget is rounded to at most the budget. */
  lemma BelowHalfUnit(units: int, f: int, x: real)
    requires LOW <= units < HIGH && 0.0 < x
    requires Scaled(x, -f) < units as real + 0.5
    ensures Nearest(x) <= Scaled(units as real, f)
  {
    var y := Scaled(x, -f);
    var top := if y < units as real then units as real else y;
    ScaledBack(x, f);
    ScaledBack(top, f);
    PositiveScaled(x, -f);
    PositiveScaled(top, f);
    ScaledMonotone(y, top, f);
    NearestMonotone(x, Scaled(top, f));
    NearestOnGrid(Scaled(top, f), f);
    assert NearestEven(top) == units;
  }

  /** A product half a unit above the budget, or more, goes where ties go. */
  lemma FromHalfUnit(units: int, f: int, x: real)
    requires LOW <= units < HIGH
    requires units as real + 0.5 <= Scaled(x, -f) < units as real + 1.0
    ensures (Nearest(x) == if Scaled(x, -f) == units as real + 0.5 && units % 2 == 0 then Scaled(units as real, f)
                           else Scaled((units + 1) as real, f))
  {
    NearestOnGrid(x, f);
    assert Scaled(x, -f).Floor == units;
  }

  /** The scaled longest edge, before rounding, in units of the budget. */
  lemma EdgeInUnits(p: real, f: int, steps: int, scale: real, c: real, edge: int, t: int, longest: real)
    requires p == c * edge as real && scale == Scaled(c, f - t - steps) && longest == Scaled(edge as real, t)
    requires scale > 0.0 && longest > 0.0
    ensures scale * longest == Scaled(p, f - steps) > 0.0
    ensures Scaled(Scaled(p, f - steps), -f) == Scaled(p, -steps)
  {
    ProductScaled(c, f - t - steps, edge as real, t, p);
    PositiveProduct(scale, longest);
    ScaledAdds(p, f - steps, -f);
  }

  lemma PositiveProduct(x: real, y: real)
    requires x > 0.0 && y > 0.0
    ensures x * y > 0.0
  {
  }

  lemma Scaled24(x: real)
    ensures 16777216.0 * Scaled(x, -24) == x
  {
    Scaled23(x);
    ScaledStep(x, -24);
  }

  lemma SmallEdge(units: int, f: int, edge: int, t: int, longest: real, scale: real)
    requires LOW <= units < edge < HIGH && longest == Scaled(edge as real, t) && longest > 0.0
    requires scale == Nearest(Scaled(units as real, f) / longest) && scale > 0.0
    ensures Nearest(scale * longest) <= Scaled(units as real, f)
  {
    var c := SmallScale(units, f, edge, t, longest);
    var p := c * edge as real;
    EdgeInUnits(p, f, 24, scale, c, edge, t, longest);
    Scaled24(p);
    BelowHalfUnit(units, f, Scaled(p, f - 24));
  }

  /** What a longest edge becomes under its rounded scale: at most the budget, or exactly one
      unit more. */
  lemma LargeEdge(units: int, f: int, edge: int, t: int, longest: real, scale: real)
    requires LOW <= edge <= units < HIGH && longest == Scaled(edge as real, t) && longest > 0.0
    requires scale == Nearest(Scaled(units as real, f) / longest) && scale > 0.0
    ensures !OvershootsAt(units, edge) ==> Nearest(scale * longest) <= Scaled(units as real, f)
    ensures OvershootsAt(units, edge) ==> Nearest(scale * longest) == Scaled((units + 1) as real, f)
  {
    var c := ScaleUnits(units, f, edge, t, longest);
    ScaleExcess(units, edge, c);
    EdgeRounds(units, f, edge, t, longest, scale, c);
  }

  lemma EdgeRounds(units: int, f: int, edge: int, t: int, longest: real, scale: real, c: int)
    requires LOW <= edge <= units < HIGH && longest == Scaled(edge as real, t) && longest > 0.0
    requires scale == Scaled(c as real, f - t - 23) && scale > 0.0 && c * edge - units * LOW < LOW
    ensures var over := c * edge - units * LOW;
            if over > HALF_GAP || (over == HALF_GAP && units % 2 == 1)
            then Nearest(scale * longest) == Scaled((units + 1) as real, f)
            else Nearest(scale * longest) <= Scaled(units as real, f)
  {
    EdgeInUnits((c * edge) as real, f, 23, scale, c as real, edge, t, longest);
    RoundedEdge(units, f, edge, c);
  }

  lemma RoundedEdge(units: int, f: int, edge: int, c: int)
    requires LOW <= edge <= units < HIGH && c * edge - units * LOW < LOW
    requires Scaled((c * edge) as real, f - 23) > 0.0
    requires Scaled(Scaled((c * edge) as real, f - 23), -f) == Scaled((c * edge) as real, -23)
    ensures var over, x := c * edge - units * LOW, Nearest(Scaled((c * edge) as real, f - 23));
            if over > HALF_GAP || (over == HALF_GAP && units % 2 == 1) then x == Scaled((units + 1) as real, f)
            else x <= Scaled(units as real, f)
  {
    var p := c * edge;
    Scaled23(p as real);
    if p - units * LOW < HALF_GAP {
      BelowHalfUnit(units, f, Scaled(p as real, f - 23));
    } else {
      FromHalfUnit(units, f, Scaled(p as real, f - 23));
    }
  }

  /** How far the whole-number scale takes the edge beyond the budget. */
  lemma ScaleExcess(units: int, edge: int, c: int)
    requires LOW <= edge <= units < HIGH
    requires c == if RoundsUp(units * LOW, edge) then units * LOW / edge + 1 else units * LOW / edge
    ensures c * edge - units * LOW < LOW
    ensures OvershootsAt(units, edge) <==>
              c * edge - units * LOW > HALF_GAP || (c * edge - units * LOW == HALF_GAP && units % 2 == 1)
  {
    var n, r := units * LOW / edge, units * LOW % edge;
    assert units * LOW == n * edge + r;
    assert (n + 1) * edge == n * edge + edge;
    ExcessIs(units, edge);
  }

  // ---- Budgets ----

  function Doublings(m: nat): nat {
    if m < HIGH then 0 else 1 + Doublings(m / 2)
  }

  lemma {:induction false} SpacingScales(m: nat, x: real)
    ensures Scaled(x, Doublings(m)) == x * Spacing(m) as real
  {
    if m >= HIGH {
      SpacingScales(m / 2, x);
      ScaledStep(x, Doublings(m / 2));
      assert x * Spacing(m) as real == 2.0 * (x * Spacing(m / 2) as real);
    }
  }

  lemma HalfQuotient(m: nat, b: nat)
    requires b >= 1
    ensures m / (2 * b) == (m / 2) / b
  {
    var q, r := (m / 2) / b, (m / 2) % b;
    assert m / 2 == q * b + r && m == 2 * (m / 2) + m % 2;
    ModIs(m, 2 * b, q, 2 * r + m % 2);
  }

  lemma {:induction false} UnitsInRange(m: nat)
    requires m >= LOW
    ensures LOW <= m / Spacing(m) < HIGH
  {
    if m >= HIGH {
      UnitsInRange(m / 2);
      HalfQuotient(m, Spacing(m / 2));
    }
  }

  /** A budget of at least 2 to the 22nd as binary32 has it, unless that rounds up. */
  lemma BudgetParts(m: nat) returns (units: int, f: int)
    requires m > MAX_SAFE_PX && (m >= LOW ==> !RoundsUp(m, Spacing(m)))
    ensures units == (if m < LOW then 2 * m else m / Spacing(m)) && LOW <= units < HIGH
    ensures AsFloat(Nearest, m) == Scaled(units as real, f) <= m as real
    ensures Scaled((units + 1) as real, f) >= m as real + 0.5
  {
    if m < LOW {
      units, f := 2 * m, -1;
    } else {
      units, f := m / Spacing(m), Doublings(m);
      UnitsInRange(m);
      LargeBudgetParts(m, Spacing(m), f);
    }
  }

  lemma LargeBudgetParts(m: nat, gap: nat, f: int)
    requires m >= LOW && gap == Spacing(m) && f == Doublings(m) && !RoundsUp(m, gap)
    ensures AsFloat(Nearest, m) == Scaled((m / gap) as real, f) <= m as real
    ensures Scaled((m / gap + 1) as real, f) >= m as real + 1.0
  {
    AsFloatIsNearest(m);
    NearestWhole(m, gap, f);
    GapBounds(m, gap, f);
  }

  lemma GapBounds(m: nat, gap: nat, f: int)
    requires gap == Spacing(m) && f == Doublings(m)
    ensures Scaled((m / gap) as real, f) <= m as real
    ensures Scaled((m / gap + 1) as real, f) >= m as real + 1.0
  {
    GapScales(m, gap, f, (m / gap) as real);
    GapScales(m, gap, f, (m / gap + 1) as real);
    WholeParts(m, gap);
  }

  lemma AsFloatIsNearest(m: nat)
    requires m >= LOW
    ensures AsFloat(Nearest, m) == Nearest(m as real)
  {
    if m <= HIGH {
      WholeIsFloat(m);
    }
  }

  lemma GapScales(m: nat, gap: nat, f: int, x: real)
    requires gap == Spacing(m) && f == Doublings(m)
    ensures Scaled(x, f) == x * gap as real
  {
    SpacingScales(m, x);
  }

  lemma WholeParts(m: nat, gap: nat)
    requires gap >= 1
    ensures (m / gap) as real * gap as real <= m as real
    ensures (m / gap + 1) as real * gap as real >= m as real + 1.0
    ensures gap == 1 ==> (m / gap) as real * gap as real == m as real
  {
    var q := m / gap;
    assert m == q * gap + m % gap;
    assert (q * gap) as real == q as real * gap as real;
    assert (q + 1) * gap == q * gap + gap;
    assert ((q + 1) * gap) as real == (q + 1) as real * gap as real;
  }

  lemma NearestOfMultiples(m: nat, gap: nat, f: int, y: real)
    requires gap >= 1 && y == Scaled(m as real, -f) && y * gap as real == m as real
    requires 8388608.0 * gap as real <= m as real <= 16777216.0 * gap as real
    ensures Nearest(m as real) == Scaled((if RoundsUp(m, gap) then m / gap + 1 else m / gap) as real, f)
  {
    InUnits(m, gap, y);
    NearestQuotient(m, gap, y);
    NearestOnGrid(m as real, f);
  }

  lemma UnscaledTimes(m: nat) returns (y: real)
    ensures y == Scaled(m as real, -(Doublings(m) as int)) && y * Spacing(m) as real == m as real
  {
    var f: int := Doublings(m);
    y := Scaled(m as real, -f);
    ScaledBack(m as real, f);
    SpacingScales(m, y);
  }

  lemma GapIs(m: nat, gap: nat)
    requires m >= LOW && gap == Spacing(m)
    ensures 8388608.0 * gap as real <= m as real <= 16777216.0 * gap as real
  {
    UnitsInRange(m);
    UnitsBound(m, gap);
  }

  lemma NearestWhole(m: nat, gap: nat, f: int)
    requires m >= LOW && gap == Spacing(m) && f == Doublings(m)
    ensures Nearest(m as real) == Scaled((if RoundsUp(m, gap) then m / gap + 1 else m / gap) as real, f)
  {
    var y := UnscaledTimes(m);
    GapIs(m, gap);
    NearestOfMultiples(m, gap, f, y);
  }

  lemma UnitsBound(m: nat, gap: nat)
    requires gap >= 1 && LOW <= m / gap < HIGH
    ensures 8388608.0 * gap as real <= m as real <= 16777216.0 * gap as real
  {
    assert m == m / gap * gap + m % gap;
    MultiplesAreOrdered(LOW, m / gap, gap);
    MultiplesAreOrdered(m / gap + 1, HIGH, gap);
  }

  lemma MultiplesAreOrdered(a: int, b: int, c: nat)
    requires a <= b
    ensures a * c <= b * c
  {
  }

  // ---- Exactness ----

  /** Settings and page sizes are binary32 values themselves. */
  predicate AreFloats(requested: Option<real>, width: real, height: real) {
    (requested.Some? ==> IsFloat(requested.value)) && IsFloat(width) && IsFloat(height)
  }

  ghost predicate AlwaysFits(maxPx: nat) {
    forall requested: Option<real>, width: real, height: real ::
      AreFloats(requested, width, height) ==> Fits(Nearest, requested, width, height, maxPx)
  }

  lemma NearestRounds()
    ensures Rounds(Nearest)
  {
    forall x ensures 16777216.0 * Abs(Nearest(x) - x) <= Abs(x) {
      if x > 0.0 {
        NearestIsNear(x);
      } else if x < 0.0 {
        NearestIsNear(-x);
      }
    }
  }

  /** A budget in binary32: its significand and exponent. */
  predicate IsBudget(maxPx: nat, units: int, f: int) {
    LOW <= units < HIGH && AsFloat(Nearest, maxPx) == Scaled(units as real, f)
  }

  lemma CeilingIs(longest: real, maxPx: nat, units: int, f: int)
    requires longest > 0.0 && IsBudget(maxPx, units, f)
    ensures Ceiling(Nearest, longest, maxPx) == Nearest(Scaled(units as real, f) / longest) > 0.0
    ensures IsFloat(Ceiling(Nearest, longest, maxPx))
  {
    PositiveScaled(units as real, f);
    PositiveQuotient(Scaled(units as real, f), longest);
    NearestIsKept(Scaled(units as real, f) / longest);
  }

  /** The longest edge of a page, scaled to a budget that does not overshoot. */
  lemma LongestWithin(longest: real, maxPx: nat, units: int, f: int, scale: real)
    requires longest > 0.0 && IsFloat(longest) && IsBudget(maxPx, units, f) && !Overshoots(units)
    requires scale == Ceiling(Nearest, longest, maxPx)
    ensures scale > 0.0 && Nearest(scale * longest) <= Scaled(units as real, f)
  {
    CeilingIs(longest, maxPx, units, f);
    var edge, t := FloatParts(longest);
    if units < edge {
      SmallEdge(units, f, edge, t, longest, scale);
    } else {
      LargeEdge(units, f, edge, t, longest, scale);
    }
  }

  lemma PositiveQuotient(x: real, y: real)
    requires x > 0.0 && y > 0.0
    ensures x / y > 0.0
  {
    QuotientTimes(x, y);
    TimesOrdered(x / y, 0.0, y);
  }

  /** A bound on a scaled edge that the cast to pixels turns into the budget. */
  predicate Bounds(most: real, maxPx: nat) {
    most <= maxPx as real || (maxPx == U32_LIMIT - 1 && most <= U32_LIMIT as real)
  }

  lemma AxisUnder(scale: real, pt: real, most: real, maxPx: nat)
    requires 1 <= maxPx < U32_LIMIT && Bounds(most, maxPx) && Nearest(scale * pt) <= most
    ensures Axis(Nearest, scale, pt).Some? && Axis(Nearest, scale, pt).value <= maxPx
  {
    assert Round(Nearest(scale * pt)) <= U32_LIMIT;
  }

  lemma Commutes(a: real, b: real)
    ensures a * b == b * a
  {
  }

  lemma ProductGrows(scale: real, pt: real, ceiling: real, longest: real)
    requires 0.0 < scale <= ceiling && 0.0 < pt <= longest
    ensures 0.0 < scale * pt <= ceiling * longest
  {
    PositiveProduct(scale, pt);
    TimesMonotone(pt, longest, scale);
    Commutes(pt, scale);
    Commutes(longest, scale);
    TimesMonotone(scale, ceiling, longest);
  }

  lemma ProductsInOrder(scale: real, pt: real, ceiling: real, longest: real)
    requires 0.0 < scale <= ceiling && 0.0 < pt <= longest
    ensures Nearest(scale * pt) <= Nearest(ceiling * longest)
  {
    ProductGrows(scale, pt, ceiling, longest);
    NearestMonotone(scale * pt, ceiling * longest);
  }

  lemma NonPositiveEdge(scale: real, pt: real)
    requires scale > 0.0 && pt <= 0.0
    ensures Nearest(scale * pt) <= 0.0
  {
    NearestRounds();
    TimesMonotone(pt, 0.0, scale);
    RoundedNonPositive(Nearest, scale * pt);
  }

  lemma EdgeFits(scale: real, pt: real, longest: real, ceiling: real, most: real, maxPx: nat)
    requires 1 <= maxPx < U32_LIMIT && pt <= longest && scale > 0.0 && 0.0 <= most && Bounds(most, maxPx)
    requires longest > 0.0 ==> scale <= ceiling && Nearest(ceiling * longest) <= most
    ensures Axis(Nearest, scale, pt).Some? && Axis(Nearest, scale, pt).value <= maxPx
  {
    if pt <= 0.0 {
      NonPositiveEdge(scale, pt);
    } else {
      ProductsInOrder(scale, pt, ceiling, longest);
    }
    AxisUnder(scale, pt, most, maxPx);
  }

  lemma ClampedScale(requested: Option<real>, width: real, height: real, maxPx: nat)
    returns (scale: real, ceiling: real)
    ensures scale == ClampScale(Nearest, requested, width, height, maxPx)
    ensures var longest := Longest(width, height);
            if longest > 0.0 then
              && ceiling == Ceiling(Nearest, longest, maxPx)
              && scale <= ceiling && (ceiling > 0.0 ==> scale > 0.0)
            else scale > 0.0
  {
    scale := ClampScale(Nearest, requested, width, height, maxPx);
    ceiling := if Longest(width, height) > 0.0 then Ceiling(Nearest, Longest(width, height), maxPx) else 0.0;
  }

  lemma BothAxes(requested: Option<real>, width: real, height: real, maxPx: nat, scale: real)
    requires scale == ClampScale(Nearest, requested, width, height, maxPx)
    requires Axis(Nearest, scale, width).Some? && Axis(Nearest, scale, width).value <= maxPx
    requires Axis(Nearest, scale, height).Some? && Axis(Nearest, scale, height).value <= maxPx
    ensures Fits(Nearest, requested, width, height, maxPx)
  {
  }

  lemma PageFits(requested: Option<real>, width: real, height: real, maxPx: nat, units: int, f: int)
    requires 1 <= maxPx < U32_LIMIT && AreFloats(requested, width, height)
    requires IsBudget(maxPx, units, f) && !Overshoots(units) && Bounds(Scaled(units as real, f), maxPx)
    ensures Fits(Nearest, requested, width, height, maxPx)
  {
    var longest, most := Longest(width, height), Scaled(units as real, f);
    var scale, ceiling := ClampedScale(requested, width, height, maxPx);
    if longest > 0.0 {
      LongestWithin(longest, maxPx, units, f, ceiling);
    }
    PositiveScaled(units as real, f);
    EdgeFits(scale, width, longest, ceiling, most, maxPx);
    EdgeFits(scale, height, longest, ceiling, most, maxPx);
    BothAxes(requested, width, height, maxPx, scale);
  }

  /** Within a safe budget every preview fits. */
  lemma SafeBudgetFits(requested: Option<real>, width: real, height: real, maxPx: nat)
    requires SafeBudget(maxPx) && maxPx < U32_LIMIT && AreFloats(requested, width, height)
    ensures Fits(Nearest, requested, width, height, maxPx)
  {
    if maxPx <= MAX_SAFE_PX {
      NearestRounds();
      PreviewFits(Nearest, requested, width, height, maxPx);
    } else if maxPx == U32_LIMIT - 1 {
      LargestBudget();
      PageFits(requested, width, height, maxPx, LOW, 9);
    } else {
      var units, f := BudgetParts(maxPx);
      PageFits(requested, width, height, maxPx, units, f);
    }
  }

  /** The largest 32-bit budget is rounded up to 2 to the 32nd, and cast back down. */
  lemma LargestBudget()
    ensures IsBudget(U32_LIMIT - 1, LOW, 9) && Scaled(LOW as real, 9) == U32_LIMIT as real && !Overshoots(LOW)
  {
    var m := U32_LIMIT - 1;
    EightDoublings();
    NearestWhole(m, 256, 8);
    TopOfBinade(8);
    Scaled9();
  }

  lemma OneDoubling(m: nat, gap: nat, f: nat)
    requires m >= HIGH && Spacing(m / 2) == gap && Doublings(m / 2) == f
    ensures Spacing(m) == 2 * gap && Doublings(m) == f + 1
  {
  }

  lemma EightDoublings()
    ensures Spacing(U32_LIMIT - 1) == 256 && Doublings(U32_LIMIT - 1) == 8
  {
    OneDoubling(33554431, 1, 0);
    OneDoubling(67108863, 2, 1);
    OneDoubling(134217727, 4, 2);
    OneDoubling(268435455, 8, 3);
    OneDoubling(536870911, 16, 4);
    OneDoubling(1073741823, 32, 5);
    OneDoubling(2147483647, 64, 6);
    OneDoubling(4294967295, 128, 7);
  }

  lemma Scaled9()
    ensures Scaled(8388608.0, 9) == 4294967296.0
  {
    ScaledStep(8388608.0, 8);
    ScaledStep(8388608.0, 7);
    ScaledStep(8388608.0, 6);
    ScaledStep(8388608.0, 5);
    ScaledStep(8388608.0, 4);
    ScaledStep(8388608.0, 3);
    ScaledStep(8388608.0, 2);
    ScaledStep(8388608.0, 1);
  }

  // ---- Budgets that do not hold ----

  lemma AxisOver(scale: real, pt: real, maxPx: nat)
    requires Nearest(scale * pt) >= maxPx as real + 0.5 && maxPx < U32_LIMIT - 1
    ensures Axis(Nearest, scale, pt).Some? ==> Axis(Nearest, scale, pt).value > maxPx
  {
    assert Round(Nearest(scale * pt)) >= maxPx + 1;
  }

  /** A page and a request that a budget cannot hold. */
  lemma Overrun(longest: real, maxPx: nat, scale: real)
    requires longest > 0.0 && IsFloat(longest) && maxPx < U32_LIMIT - 1
    requires scale == Ceiling(Nearest, longest, maxPx) > 0.0 && IsFloat(scale)
    requires Nearest(scale * longest) >= maxPx as real + 0.5
    ensures AreFloats(Some(scale), longest, longest) && !Fits(Nearest, Some(scale), longest, longest, maxPx)
  {
    assert ClampScale(Nearest, Some(scale), longest, longest, maxPx) == scale;
    AxisOver(scale, longest, maxPx);
  }

  lemma WholeIsFloat(n: int)
    requires LOW <= n <= HIGH
    ensures IsFloat(n as real)
  {
    GridIsKept(n, 0);
  }

  lemma OvershootOverruns(maxPx: nat, units: int, f: int, edge: int)
    requires maxPx < U32_LIMIT - 1 && IsBudget(maxPx, units, f) && LOW <= edge <= units && OvershootsAt(units, edge)
    requires Scaled((units + 1) as real, f) >= maxPx as real + 0.5
    ensures !AlwaysFits(maxPx)
  {
    var longest := edge as real;
    var scale := Ceiling(Nearest, longest, maxPx);
    WholeIsFloat(edge);
    CeilingIs(longest, maxPx, units, f);
    LargeEdge(units, f, edge, 0, longest, scale);
    Overrun(longest, maxPx, scale);
  }

  lemma RoundedUpBudget(maxPx: nat) returns (budget: real)
    requires HIGH < maxPx && RoundsUp(maxPx, Spacing(maxPx))
    ensures budget == AsFloat(Nearest, maxPx) >= maxPx as real + 1.0 && IsFloat(budget)
  {
    budget := Nearest(maxPx as real);
    RoundedUpBy(maxPx, Spacing(maxPx), Doublings(maxPx));
    NearestIsKept(maxPx as real);
  }

  lemma RoundedUpBy(m: nat, gap: nat, f: int)
    requires m >= LOW && gap == Spacing(m) && f == Doublings(m) && RoundsUp(m, gap)
    ensures Nearest(m as real) >= m as real + 1.0
  {
    NearestWhole(m, gap, f);
    GapBounds(m, gap, f);
  }

  /** A budget that is itself rounded up is overrun by a page of one point. */
  lemma RoundedUpOverruns(maxPx: nat)
    requires HIGH < maxPx < U32_LIMIT - 1 && RoundsUp(maxPx, Spacing(maxPx))
    ensures !AlwaysFits(maxPx)
  {
    OnePointIsFloat();
    RoundedUpOverrunsPoint(maxPx, 1.0);
  }

  lemma RoundedUpOverrunsPoint(maxPx: nat, point: real)
    requires HIGH < maxPx < U32_LIMIT - 1 && RoundsUp(maxPx, Spacing(maxPx)) && point == 1.0 && IsFloat(point)
    ensures !AlwaysFits(maxPx)
  {
    var budget := RoundedUpBudget(maxPx);
    PointOverruns(maxPx, point, budget);
  }

  lemma PointOverruns(maxPx: nat, point: real, budget: real)
    requires maxPx < U32_LIMIT - 1 && point == 1.0 && IsFloat(point)
    requires budget == AsFloat(Nearest, maxPx) >= maxPx as real + 1.0 && IsFloat(budget)
    ensures !AlwaysFits(maxPx)
  {
    PointIsNeutral(budget, point);
    PointCeiling(maxPx, point, budget);
    Overrun(point, maxPx, budget);
  }

  lemma PointIsNeutral(x: real, point: real)
    requires point == 1.0
    ensures x / point == x && x * point == x
  {
  }

  lemma PointCeiling(maxPx: nat, point: real, budget: real)
    requires point > 0.0 && budget == AsFloat(Nearest, maxPx) && budget / point == budget && IsFloat(budget)
    ensures Ceiling(Nearest, point, maxPx) == budget
  {
  }

  lemma OnePointIsFloat()
    ensures IsFloat(1.0)
  {
    Scaled23(8388608.0);
    GridIsKept(LOW, -23);
  }

  lemma UnsafeBudgetOverruns(maxPx: nat)
    requires maxPx < U32_LIMIT && !SafeBudget(maxPx) && maxPx > 0
    ensures !AlwaysFits(maxPx)
  {
    if maxPx >= LOW && RoundsUp(maxPx, Spacing(maxPx)) {
      RoundedUpOverruns(maxPx);
    } else {
      var units, f := BudgetParts(maxPx);
      var edge :| LOW <= edge <= units && OvershootsAt(units, edge);
      OvershootOverruns(maxPx, units, f, edge);
    }
  }

  lemma NoBudgetOverruns()
    ensures !AlwaysFits(0)
  {
    OnePointIsFloat();
    NothingFitsNothing(1.0);
  }

  lemma NothingFitsNothing(point: real)
    requires IsFloat(point)
    ensures !AlwaysFits(0)
  {
    assert AreFloats(None, point, point) && !Fits(Nearest, None, point, point, 0);
  }

  /** The pixel budget, exactly: every preview fits, whatever the page and the request,
      exactly for the budgets that pass the check. */
  lemma BudgetsFitExactly(maxPx: nat)
    requires maxPx < U32_LIMIT
    ensures AlwaysFits(maxPx) <==> SafeBudget(maxPx)
  {
    if SafeBudget(maxPx) {
      forall requested: Option<real>, width: real, height: real | AreFloats(requested, width, height)
        ensures Fits(Nearest, requested, width, height, maxPx)
      {
        SafeBudgetFits(requested, width, height, maxPx);
      }
    } else if maxPx == 0 {
      NoBudgetOverruns();
    } else {
      UnsafeBudgetOverruns(maxPx);
    }
  }

  ghost predicate FloatPages(pages: seq<Page>, rq: Request) {
    forall page | page in pages :: AreFloats(rq.scale, page.width, page.height)
  }

  /** Nothing in this document is refused as too large. */
  ghost predicate NothingTooLarge(pages: seq<Page>, rq: Request) {
    forall number: nat :: PreviewOf(Nearest, pages, number, rq) != Err(PageTooLarge(number))
  }

  lemma SafeBudgetRefusesNothing(pages: seq<Page>, rq: Request)
    requires rq.maxPx < U32_LIMIT && SafeBudget(rq.maxPx) && FloatPages(pages, rq)
    ensures NothingTooLarge(pages, rq)
  {
    forall number: nat | IsPage(pages, number)
      ensures PreviewOf(Nearest, pages, number, rq) != Err(PageTooLarge(number))
    {
      assert pages[number - 1] in pages;
      SafeBudgetFits(rq.scale, pages[number - 1].width, pages[number - 1].height, rq.maxPx);
    }
  }

  lemma OverrunIsRefused(page: Page, rq: Request)
    requires !Fits(Nearest, rq.scale, page.width, page.height, rq.maxPx)
    ensures !NothingTooLarge([page], rq)
  {
    assert PreviewOf(Nearest, [page], 1, rq) == Err(PageTooLarge(1));
  }

  lemma UnsafeBudgetRefuses(maxPx: nat) returns (pages: seq<Page>, rq: Request)
    requires maxPx < U32_LIMIT && !SafeBudget(maxPx)
    ensures rq.maxPx == maxPx && FloatPages(pages, rq) && !NothingTooLarge(pages, rq)
  {
    BudgetsFitExactly(maxPx);
    var scale: Option<real>, width: real, height: real :|
      AreFloats(scale, width, height) && !Fits(Nearest, scale, width, height, maxPx);
    pages, rq := [Page(width, height)], Request(scale, maxPx, (n: nat) => true);
    OverrunIsRefused(Page(width, height), rq);
  }

  /** No preview of any document is too large, exactly when the budget passes the check. */
  lemma NoPreviewIsTooLarge(maxPx: nat)
    requires maxPx < U32_LIMIT
    ensures (forall pages: seq<Page>, rq: Request ::
               rq.maxPx == maxPx && FloatPages(pages, rq) ==> NothingTooLarge(pages, rq))
            <==> SafeBudget(maxPx)
  {
    if SafeBudget(maxPx) {
      forall pages: seq<Page>, rq: Request | rq.maxPx == maxPx && FloatPages(pages, rq)
        ensures NothingTooLarge(pages, rq)
      {
        SafeBudgetRefusesNothing(pages, rq);
      }
    } else {
      var pages, rq := UnsafeBudgetRefuses(maxPx);
      assert rq.maxPx == maxPx && FloatPages(pages, rq) && !NothingTooLarge(pages, rq);
    }
  }

  // ---- What a preview looks like ----

  lemma FloatQuotientBounds(r: real, longest: real, budget: real)
    requires r > 0.0 && longest > 0.0 && IsFloat(r) && r * longest <= budget
    ensures r <= Nearest(budget / longest)
  {
    TimesOrdered(r, budget / longest, longest);
    QuotientTimes(budget, longest);
    NearestMonotone(r, budget / longest);
  }

  lemma SaneIsFloat(requested: Option<real>)
    requires requested.Some? ==> IsFloat(requested.value)
    ensures IsFloat(Sane(requested))
  {
    OnePointIsFloat();
  }

  lemma ScaleIsAsked(requested: Option<real>, width: real, height: real, maxPx: nat, asked: real)
    requires asked == Sane(requested) && IsFloat(asked)
    ensures ClampScale(Nearest, requested, width, height, maxPx) <= asked
    ensures asked * Longest(width, height) <= AsFloat(Nearest, maxPx) ==>
              ClampScale(Nearest, requested, width, height, maxPx) == asked
  {
    var longest, budget := Longest(width, height), AsFloat(Nearest, maxPx);
    if longest > 0.0 && asked * longest <= budget {
      FloatQuotientBounds(asked, longest, budget);
    }
  }

  /** The scale of a preview: never more than was asked for, and just that whenever the
      longest edge is then within the budget; what is missing, or is no positive number, asks
      for one pixel per point. */
  lemma ScaleIsTheRequest(requested: Option<real>, width: real, height: real, maxPx: nat, asked: real)
    requires AreFloats(requested, width, height)
    requires asked == if requested.Some? && requested.value > 0.0 then requested.value else 1.0
    ensures ClampScale(Nearest, requested, width, height, maxPx) <= asked
    ensures asked * Longest(width, height) <= AsFloat(Nearest, maxPx) ==>
              ClampScale(Nearest, requested, width, height, maxPx) == asked
  {
    assert IsFloat(asked) by { SaneIsFloat(requested); }
    ScaleIsAsked(requested, width, height, maxPx, asked);
  }

  lemma PixelsAtOne(width: nat, height: nat)
    requires 1 <= width <= 0x100_0000 && 1 <= height <= 0x100_0000 && AreFloats(None, width as real, height as real)
    ensures PredictedPixels(Nearest, width as real, height as real, 1.0) == Some((width, height))
  {
    WholeAxis(width);
    WholeAxis(height);
  }

  /** At one pixel per point, a page of whole points within the budget keeps its size. */
  lemma WholePagesKeepTheirSize(width: nat, height: nat, maxPx: nat, scale: real)
    requires 1 <= width <= maxPx <= 0x100_0000 && 1 <= height <= maxPx
    requires AreFloats(None, width as real, height as real)
    requires scale == ClampScale(Nearest, None, width as real, height as real, maxPx)
    ensures PredictedPixels(Nearest, width as real, height as real, scale) == Some((width, height))
  {
    assert scale == 1.0 by { ScaleIsTheRequest(None, width as real, height as real, maxPx, 1.0); }
    PixelsAtOne(width, height);
  }

  lemma WholeAxis(n: nat)
    requires 1 <= n <= 0x100_0000 && IsFloat(n as real)
    ensures Axis(Nearest, 1.0, n as real) == Some(n)
  {
    assert 1.0 * n as real == n as real;
    assert Round(n as real) == n;
  }

  // ---- Reading the check ----

  lemma ProductOfHalves(a: int, b: int, product: int)
    requires a >= 0 && b >= 0 && a + b <= 4096 && product == a * b
    ensures 0 <= product <= HALF_GAP && (product == HALF_GAP ==> a + b == 4096)
  {
    var m, gap := a + b, a - b;
    assert 4 * product == m * m - gap * gap;
    assert gap * gap >= 0;
    if m < 4096 {
      MultiplesAreOrdered(m, 4095, m);
    } else {
      assert m * m == 16777216;
    }
  }

  /** Significands within 4096 of the lowest never overshoot. */
  lemma LowUnitsHold(units: int)
    requires LOW <= units <= LOW + 4096
    ensures !Overshoots(units)
  {
    forall edge | LOW <= edge <= units ensures !OvershootsAt(units, edge) {
      var product := (units - edge) * (edge - LOW);
      ProductOfHalves(units - edge, edge - LOW, product);
      SmallModulus(product, edge);
    }
  }

  lemma SmallModulus(a: int, b: int)
    requires 0 <= a < b
    ensures a % b == a
  {
  }

  const SAFE_UP_TO: nat := 4196352

  /** The next budget fails on an edge with significand 8390593. */
  lemma NextBudgetFails()
    ensures !SafeBudget(SAFE_UP_TO + 1)
  {
    var units, edge := 2 * (SAFE_UP_TO + 1), 8390593;
    assert (units - edge) * (edge - LOW) == 4194305;
    assert OvershootsAt(units, edge);
  }

  /** Setting the budget anywhere up to `n` is safe exactly when `n` is at most 4196352. */
  lemma EveryBudgetUpTo(n: nat)
    ensures (forall maxPx: nat :: 1 <= maxPx <= n ==> SafeBudget(maxPx)) <==> n <= SAFE_UP_TO
  {
    NextBudgetFails();
    forall maxPx: nat | MAX_SAFE_PX < maxPx <= SAFE_UP_TO ensures SafeBudget(maxPx) {
      LowUnitsHold(2 * maxPx);
    }
  }

  /** Five million pixels do not hold: an edge with significand 8389736, such as
      8389736 / 16384 points, is made 5000001 pixels long. */
  lemma FiveMillionFails()
    ensures !SafeBudget(5000000) && !AlwaysFits(5000000)
  {
    var units, edge := 10000000, 8389736;
    assert (units - edge) * (edge - LOW) == 1816377792;
    ModIs(1816377792, edge, 216, 4194816);
    assert OvershootsAt(units, edge);
    BudgetsFitExactly(5000000);
  }
}
