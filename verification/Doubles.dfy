/** Double-precision arithmetic as far as the proportional shares need it: every
    operation rounds its exact result with the relative error of binary64. */
module Doubles {
  /** Half the distance from 1 to the next double, 2^-53. */
  const UNIT: real := 1.0 / 9007199254740992.0

  /** Below 2^51 the error of two roundings stays under 1. */
  const EXACT_LIMIT: nat := 0x8_0000_0000_0000

  /** Sizes up to 2^53 convert to doubles exactly. */
  const MAX_SIZE: nat := 0x20_0000_0000_0000

  const SMALLEST: real := 1.0 / 18446744073709551616.0
  const LARGEST: real := 340282366920938463463374607431768211456.0

  /** Zero, or between 2^-64 and 2^128: far inside the normal range. */
  predicate IsNormal(x: real) {
    x == 0.0 || SMALLEST <= x <= LARGEST
  }

  /** Rounding has the relative error of binary64 on normal numbers, and never
      changes a sign. */
  ghost predicate Rounds(fl: real -> real) {
    && (forall x: real | IsNormal(x) :: x - x * UNIT <= fl(x) <= x + x * UNIT)
    && (forall x: real | x >= 0.0 :: fl(x) >= 0.0)
  }

  function Times(a: real, b: real): real {
    a * b
  }

  /** Two operations in doubles. */
  function Product(fl: real -> real, p: real, x: real): real {
    fl(Times(p, fl(x)))
  }

  /** (size_t)((double)pool * ((double)e / (double)total)) */
  function Portion(fl: real -> real, pool: nat, e: nat, total: nat): int
    requires total > 0
  {
    Product(fl, pool as real, e as real / total as real).Floor
  }

  predicate AreSizes(pool: nat, e: nat, total: nat) {
    pool <= MAX_SIZE && e <= MAX_SIZE && 0 < total <= MAX_SIZE
  }

  lemma Scale(a: real, x: real, y: real)
    requires a >= 0.0 && x <= y
    ensures a * x <= a * y
  {
  }

  lemma TimesSum(a: real, b: real, c: real)
    ensures a * (b + c) == a * b + a * c && a * (b - c) == a * b - a * c
  {
  }

  lemma Regroup(a: real, b: real, c: real)
    ensures (a * b) * c == a * (b * c)
  {
  }

  /** Rounding a factor moves the product by its relative error. */
  lemma RoundedFactor(p: real, x: real, q: real)
    requires p >= 0.0 && x >= 0.0 && x - x * UNIT <= q <= x + x * UNIT
    ensures p * x - (p * x) * UNIT <= p * q <= p * x + (p * x) * UNIT
  {
    Scale(p, x - x * UNIT, q);
    Scale(p, q, x + x * UNIT);
    TimesSum(p, x, x * UNIT);
    Regroup(p, x, UNIT);
  }

  lemma Spread(z: real, y: real, v: real)
    requires 0.0 <= z && z - z * UNIT <= y <= z + z * UNIT && y - y * UNIT <= v <= y + y * UNIT
    ensures 0.0 <= v && z - 4.0 * UNIT * z <= v <= z + 4.0 * UNIT * z
  {
  }

  /** A factor between 1 and 2^53. */
  lemma SizeFactor(x: real, t: real, e: real)
    requires x >= 0.0 && 1.0 <= t <= 9007199254740992.0 && x * t == e
    ensures x <= e <= x * 9007199254740992.0
  {
    Scale(x, 1.0, t);
    Scale(x, t, 9007199254740992.0);
    assert x * 1.0 == x;
  }

  predicate IsRealSize(x: real) {
    x == 0.0 || 1.0 <= x <= 9007199254740992.0
  }

  predicate IsQuotient(x: real) {
    x == 0.0 || UNIT <= x <= 9007199254740992.0
  }

  /** The quotient of two sizes is 0 or between 2^-53 and 2^53. */
  lemma QuotientInRange(x: real, e: real)
    requires x >= 0.0 && x <= e <= x * 9007199254740992.0
    requires IsRealSize(e)
    ensures IsQuotient(x)
  {
  }

  lemma ProductInRange(p: real, q: real)
    requires IsRealSize(p)
    requires q == 0.0 || UNIT / 2.0 <= q <= 18014398509481984.0
    ensures IsNormal(q * p)
  {
    if p != 0.0 && q != 0.0 {
      SizeFactor(q, p, q * p);
      Widen(q, q * p);
    }
  }

  lemma Widen(q: real, y: real)
    requires UNIT / 2.0 <= q <= 18014398509481984.0 && q <= y <= q * 9007199254740992.0
    ensures IsNormal(y)
  {
  }

  lemma Commute(a: real, b: real)
    ensures a * b == b * a
  {
  }

  lemma RoundedInRange(fl: real -> real, x: real)
    requires Rounds(fl) && IsQuotient(x)
    ensures IsNormal(x) && x - x * UNIT <= fl(x) <= x + x * UNIT
    ensures fl(x) == 0.0 || UNIT / 2.0 <= fl(x) <= 18014398509481984.0
  {
    assert IsNormal(x);
  }

  /** What two roundings leave of p * x, multiplied by t. */
  lemma TwoRoundings(p: real, x: real, q: real, y: real, v: real, t: real, r: real)
    requires p >= 0.0 && x >= 0.0 && t > 0.0 && (p * x) * t == r
    requires x - x * UNIT <= q <= x + x * UNIT && y == p * q && y - y * UNIT <= v <= y + y * UNIT
    ensures r - 4.0 * UNIT * r <= t * v <= r + 4.0 * UNIT * r
  {
    var z := p * x;
    RoundedFactor(p, x, q);
    Scale(p, 0.0, x);
    Spread(z, y, v);
    FactorOut(t, z, v, r);
  }

  lemma FactorOut(t: real, z: real, v: real, r: real)
    requires t > 0.0 && z * t == r && z - 4.0 * UNIT * z <= v <= z + 4.0 * UNIT * z
    ensures r - 4.0 * UNIT * r <= t * v <= r + 4.0 * UNIT * r
  {
    Scale(t, z - 4.0 * UNIT * z, v);
    Scale(t, v, z + 4.0 * UNIT * z);
    TimesSum(t, z, 4.0 * UNIT * z);
    Commute(t, z);
    Regroup(4.0 * UNIT, z, t);
    Commute(t, 4.0 * UNIT * z);
  }

  lemma SecondRounding(fl: real -> real, p: real, q: real, y: real)
    requires Rounds(fl) && IsRealSize(p) && y == p * q
    requires q == 0.0 || UNIT / 2.0 <= q <= 18014398509481984.0
    ensures y - y * UNIT <= fl(y) <= y + y * UNIT
  {
    ProductInRange(p, q);
    Commute(p, q);
    assert IsNormal(y);
  }

  /** `w` is `r` up to a factor of 1 + 2^-51. */
  predicate IsNear(w: real, r: real) {
    r - 4.0 * UNIT * r <= w <= r + 4.0 * UNIT * r
  }

  lemma ProductIsNear(fl: real -> real, p: real, x: real, q: real, y: real, v: real, t: real, r: real)
    requires Rounds(fl) && IsRealSize(p) && IsQuotient(x) && t > 0.0 && (p * x) * t == r
    requires q == fl(x) && y == p * q && v == fl(y)
    ensures IsNear(t * v, r)
  {
    RoundedInRange(fl, x);
    SecondRounding(fl, p, q, y);
    TwoRoundings(p, x, q, y, v, t, r);
  }

  lemma PortionOfReals(fl: real -> real, p: real, x: real, t: real, e: real, r: real, q: real, y: real, v: real)
    requires Rounds(fl) && IsRealSize(p) && IsRealSize(e) && IsRealSize(t) && t > 0.0 && x >= 0.0
    requires x * t == e && p * e == r && q == fl(x) && y == p * q && v == fl(y)
    ensures IsNear(t * v, r)
  {
    SizeFactor(x, t, e);
    QuotientInRange(x, e);
    Regroup(p, x, t);
    ProductIsNear(fl, p, x, q, y, v, t, r);
  }

  lemma ProductSteps(fl: real -> real, p: real, x: real) returns (q: real, y: real, v: real)
    ensures q == fl(x) && y == p * q && v == fl(y) && v == Product(fl, p, x)
  {
    q := fl(x);
    y := Times(p, q);
    v := fl(y);
  }

  lemma PortionIsReal(fl: real -> real, pool: nat, e: nat, total: nat, n: nat) returns (v: real)
    requires Rounds(fl) && AreSizes(pool, e, total) && n == pool * e
    ensures Portion(fl, pool, e, total) == v.Floor
    ensures IsNear(total as real * v, n as real)
  {
    var x := RealQuotient(e, total);
    var q, y;
    q, y, v := ProductSteps(fl, pool as real, x);
    ProductOf(pool, e, n);
    PortionOfReals(fl, pool as real, x, total as real, e as real, n as real, q, y, v);
  }

  lemma PortionIsNatural(fl: real -> real, pool: nat, e: nat, total: nat)
    requires Rounds(fl) && total > 0
    ensures Portion(fl, pool, e, total) >= 0
  {
    var x := RealQuotient(e, total);
    Scale(pool as real, 0.0, fl(x));
  }

  /** The share that is computed is the exact quotient rounded down, or one less. */
  lemma PortionIsNear(fl: real -> real, pool: nat, e: nat, total: nat, n: nat)
    requires Rounds(fl) && AreSizes(pool, e, total) && n == pool * e < EXACT_LIMIT
    ensures n / total - 1 <= Portion(fl, pool, e, total) <= n / total
  {
    var v := PortionIsReal(fl, pool, e, total, n);
    NearQuotient(n, total, n as real, v);
  }

  /** Whatever the product: the portion exceeds it by a factor of 1 + 2^-51 at most. */
  lemma PortionIsBelow(fl: real -> real, pool: nat, e: nat, total: nat, n: nat, part: nat)
    requires Rounds(fl) && AreSizes(pool, e, total) && n == pool * e && part == Portion(fl, pool, e, total)
    ensures EXACT_LIMIT * (total * part) <= (EXACT_LIMIT + 1) * n
  {
    var v := PortionIsReal(fl, pool, e, total, n);
    Scale(total as real, part as real, v);
    ProductOf(total, part, total * part);
    NearAbove(total * part, n, total as real * v);
  }

  /** And falls short of it, rounded up, by no more than that factor. */
  lemma PortionIsAbove(fl: real -> real, pool: nat, e: nat, total: nat, n: nat, up: nat, a: nat)
    requires Rounds(fl) && AreSizes(pool, e, total) && n == pool * e && up == Portion(fl, pool, e, total) + 1
    requires a == total * up
    ensures EXACT_LIMIT * a + n >= EXACT_LIMIT * n
  {
    var v := PortionIsReal(fl, pool, e, total, n);
    FloorIsNear(v, up - 1);
    WholeAbove(total, up, n, a, v);
  }

  lemma FloorIsNear(v: real, part: nat)
    requires part == v.Floor
    ensures v <= (part + 1) as real
  {
  }

  lemma WholeAbove(total: nat, up: nat, n: nat, a: nat, v: real)
    requires v <= up as real && a == total * up && IsNear(total as real * v, n as real)
    ensures EXACT_LIMIT * a + n >= EXACT_LIMIT * n
  {
    Scale(total as real, v, up as real);
    ProductOf(total, up, a);
    NearBelow(a, n, total as real * v);
  }

  lemma NearBelow(a: nat, n: nat, w: real)
    requires a as real >= w && IsNear(w, n as real)
    ensures EXACT_LIMIT * a + n >= EXACT_LIMIT * n
  {
  }

  /** Two whole bytes of exact quotient leave at least one. */
  lemma PortionIsPositive(fl: real -> real, pool: nat, e: nat, total: nat, n: nat)
    requires Rounds(fl) && AreSizes(pool, e, total) && n == pool * e >= 2 * total
    ensures Portion(fl, pool, e, total) >= 1
  {
    var v := PortionIsReal(fl, pool, e, total, n);
    AtLeastOne(total as real, v, total as real * v, n as real);
  }

  lemma AtLeastOne(t: real, v: real, w: real, r: real)
    requires t > 0.0 && r >= 2.0 * t && w == t * v && IsNear(w, r)
    ensures v >= 1.0
  {
    assert w > t * 1.0 by { AboveHalf(w, r, t); }
    if v < 1.0 { Scale(t, v, 1.0); }
  }

  lemma AboveHalf(w: real, r: real, t: real)
    requires t > 0.0 && r >= 2.0 * t && IsNear(w, r)
    ensures w > t * 1.0
  {
  }

  /** An exact quotient below 1 is cut to 0. */
  lemma PortionIsZero(fl: real -> real, pool: nat, e: nat, total: nat, n: nat)
    requires Rounds(fl) && AreSizes(pool, e, total) && n == pool * e < total <= EXACT_LIMIT
    ensures Portion(fl, pool, e, total) == 0
  {
    PortionIsNatural(fl, pool, e, total);
    var part: nat := Portion(fl, pool, e, total);
    PortionIsBelow(fl, pool, e, total, n, part);
    if part >= 1 { OneIsTooMuch(total, part, n); }
  }

  lemma OneIsTooMuch(total: nat, part: nat, n: nat)
    requires part >= 1 && n < total <= EXACT_LIMIT
    ensures EXACT_LIMIT * (total * part) > (EXACT_LIMIT + 1) * n
  {
    assert total * part >= total;
  }

  lemma NearAbove(a: nat, n: nat, w: real)
    requires a as real <= w && IsNear(w, n as real)
    ensures EXACT_LIMIT * a <= (EXACT_LIMIT + 1) * n
  {
  }

  lemma RealQuotient(e: nat, total: nat) returns (x: real)
    requires total > 0
    ensures x == e as real / total as real && x >= 0.0 && x * total as real == e as real
  {
    x := e as real / total as real;
  }

  lemma ProductOf(a: nat, b: nat, n: nat)
    requires n == a * b
    ensures a as real * b as real == n as real
  {
  }

  lemma NearQuotient(n: nat, total: nat, r: real, v: real)
    requires total > 0 && n < EXACT_LIMIT && r == n as real
    requires r - 4.0 * UNIT * r <= total as real * v <= r + 4.0 * UNIT * r
    ensures n / total - 1 <= v.Floor <= n / total
  {
    var k := n / total;
    Near(n, total, k);
    assert 4.0 * UNIT * r < 1.0;
    Between((k - 1) as real, v, (k + 1) as real, total as real, r - 1.0, r + 1.0);
  }

  lemma Between(a: real, v: real, b: real, t: real, low: real, high: real)
    requires t > 0.0 && t * a <= low < t * v < high <= t * b
    ensures a < v < b
  {
    Below(a, v, t);
    Below(v, b, t);
  }

  lemma Near(n: nat, total: nat, k: int)
    requires total > 0 && k == n / total
    ensures n as real + 1.0 <= total as real * (k + 1) as real
    ensures total as real * (k - 1) as real <= n as real - 1.0
  {
    assert n + 1 <= total * (k + 1) && total * (k - 1) <= n - 1;
    assert (total * (k + 1)) as real == total as real * (k + 1) as real;
    assert (total * (k - 1)) as real == total as real * (k - 1) as real;
  }

  lemma Below(a: real, b: real, t: real)
    requires t > 0.0 && t * a < t * b
    ensures a < b
  {
    if a >= b { Scale(t, b, a); }
  }

  /** 49 times a quotient of 1/49 is 1, and comes out just below it. */
  lemma RoundingCanTakeOne(fl: real -> real, e: nat, total: nat)
    requires e > 0 && total == 49 * e
    requires fl(1.0 / 49.0) == 5882252574524729.0 / 288230376151711744.0
    requires fl(49.0 * (5882252574524729.0 / 288230376151711744.0)) == 9007199254740991.0 / 9007199254740992.0
    ensures 49 * e / total == 1 && Portion(fl, 49, e, total) == 0
  {
    assert e as real / total as real == 1.0 / 49.0;
  }
}
