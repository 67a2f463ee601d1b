/** The confidence engine's fixed-point base-2 logarithm by repeated squaring, and the entropy
    built on it. `fraction` is the number of fractional bits; the engine uses 24. */
module Log2 {
  import opened Powers

  /** 2^48, the unit of the squared mantissa. */
  const UNIT: nat := 0x1_0000_0000_0000

  const MAX_FRACTION: nat := 24

  /** floor(log2 value): one less than the length of the binary numeral. */
  function Bits(value: nat): (b: nat)
    requires value >= 1
    ensures Pow2(b) <= value < 2 * Pow2(b)
  {
    if value == 1 then 0 else 1 + Bits(value / 2)
  }

  function Squared(x: nat): nat { x * x / UNIT }
  function NextX(x: nat): nat { if Squared(x) >= 2 * UNIT then Squared(x) / 2 else Squared(x) }
  function NextBit(x: nat): nat { if Squared(x) >= 2 * UNIT then 1 else 0 }

  /** The k fractional bits produced from mantissa x. */
  function Refine(x: nat, k: nat): nat
    decreases k
  {
    if k == 0 then 0 else NextBit(x) * Pow2(k - 1) + Refine(NextX(x), k - 1)
  }

  function Mantissa(value: nat): (x: nat)
    requires value >= 1
    ensures UNIT <= x < 2 * UNIT
  {
    var p := Pow2(Bits(value));
    MantissaRange(value, p);
    value * UNIT / p
  }

  lemma MantissaRange(value: nat, p: nat)
    requires 0 < p <= value < 2 * p
    ensures UNIT <= value * UNIT / p < 2 * UNIT
  {
    var x := value * UNIT / p;
    assert x * p <= value * UNIT < (x + 1) * p;
    if x < UNIT { MulMono(x + 1, UNIT, p); }
    if x >= 2 * UNIT { MulMono(2 * UNIT, x, p); }
  }

  function Log(value: nat, fraction: nat): nat
    requires value >= 1
  {
    Bits(value) * Pow2(fraction) + Refine(Mantissa(value), fraction)
  }

  lemma SquaredRange(x: nat)
    requires UNIT <= x < 2 * UNIT
    ensures UNIT <= Squared(x) < 4 * UNIT && UNIT <= NextX(x) < 2 * UNIT
    ensures UNIT * Squared(x) <= x * x < UNIT * (Squared(x) + 1)
  {
    MulMono(UNIT, x, x);
    MulMono(UNIT, x, UNIT);
    MulMono(x, 2 * UNIT - 1, x);
    MulMono(x, 2 * UNIT - 1, 2 * UNIT - 1);
  }

  /** The loop, setting one fractional bit a turn; the bit set is still clear, so or-ing it in adds. */
  method Compute(value: nat, fraction: nat) returns (result: nat)
    requires value >= 1
    ensures result == Log(value, fraction)
  {
    var x := Mantissa(value);
    result := Bits(value) * Pow2(fraction);
    var bit := fraction;
    while bit > 0
      invariant UNIT <= x < 2 * UNIT && result + Refine(x, bit) == Log(value, fraction)
    {
      SquaredRange(x);
      bit := bit - 1;
      x := x * x / UNIT;
      if x >= 2 * UNIT {
        x := x / 2;
        result := result + Pow2(bit);
      }
    }
  }

  // ---------- exactness, order and error bounds ----------

  lemma {:induction false} RefineOne(k: nat)
    ensures Refine(UNIT, k) == 0
    decreases k
  {
    assert UNIT * UNIT / UNIT == UNIT;
    if k > 0 { RefineOne(k - 1); }
  }

  lemma {:induction false} BitsPow2(m: nat)
    ensures Bits(Pow2(m)) == m
  {
    if m > 0 { BitsPow2(m - 1); }
  }

  lemma DivExact(p: nat, u: nat)
    requires p > 0
    ensures p * u / p == u
  {
    var q := p * u / p;
    assert q * p <= u * p < (q + 1) * p;
    CancelLess(u, q + 1, p);
    CancelLess(q, u + 1, p);
  }

  /** Exact on powers of two. */
  lemma LogOfPow2(m: nat, fraction: nat)
    ensures Log(Pow2(m), fraction) == m * Pow2(fraction)
  {
    BitsPow2(m);
    DivExact(Pow2(m), UNIT);
    assert Mantissa(Pow2(m)) == UNIT;
    RefineOne(fraction);
  }

  lemma DoubleQuotient(n: nat, d: nat)
    requires d > 0
    ensures (2 * n) / (2 * d) == n / d
  {
    var q := n / d;
    assert q * d <= n < (q + 1) * d;
    assert q * (2 * d) == 2 * (q * d) && (q + 1) * (2 * d) == 2 * ((q + 1) * d);
    QuotientIs(2 * n, 2 * d, q);
  }

  lemma BothDoubled(v: nat, p: nat, unit: nat)
    requires p > 0
    ensures (2 * v) * unit / (2 * p) == v * unit / p
  {
    assert (2 * v) * unit == 2 * (v * unit);
    DoubleQuotient(v * unit, p);
  }

  lemma SameMantissa(value: nat)
    requires value >= 1
    ensures Bits(2 * value) == Bits(value) + 1 && Mantissa(2 * value) == Mantissa(value)
  {
    assert 2 * value / 2 == value;
    BothDoubled(value, Pow2(Bits(value)), UNIT);
  }

  /** Doubling adds exactly one. */
  lemma LogOfDouble(value: nat, fraction: nat)
    requires value >= 1
    ensures Log(2 * value, fraction) == Log(value, fraction) + Pow2(fraction)
  {
    SameMantissa(value);
    OneBitMore(value, 2 * value, fraction);
  }

  lemma OneBitMore(v: nat, w: nat, fraction: nat)
    requires v >= 1 && w >= 1 && Bits(w) == Bits(v) + 1 && Mantissa(w) == Mantissa(v)
    ensures Log(w, fraction) == Log(v, fraction) + Pow2(fraction)
  {
    NextMultiple(Bits(v), Pow2(fraction));
  }

  lemma NextMultiple(b: nat, f: nat)
    ensures (b + 1) * f == b * f + f
  {
  }

  lemma {:induction false} LogOfShift(value: nat, j: nat, fraction: nat)
    requires value >= 1
    ensures Times(Pow2(j), value) >= 1
    ensures Log(Times(Pow2(j), value), fraction) == Log(value, fraction) + Times(j, Pow2(fraction))
  {
    if j > 0 {
      LogOfShift(value, j - 1, fraction);
      Doubled(Pow2(j - 1), value);
      LogOfDouble(Times(Pow2(j - 1), value), fraction);
      TimesNext(j, Pow2(fraction));
    } else {
      assert Times(1, value) == value;
    }
  }

  lemma Doubled(a: nat, b: nat)
    ensures Times(2 * a, b) == 2 * Times(a, b)
  {
  }

  lemma {:induction false} RefineBound(x: nat, k: nat)
    ensures Refine(x, k) < Pow2(k)
    decreases k
  {
    if k > 0 { RefineBound(NextX(x), k - 1); }
  }

  lemma {:induction false} RefineMono(x: nat, y: nat, k: nat)
    requires UNIT <= x <= y < 2 * UNIT
    ensures Refine(x, k) <= Refine(y, k)
    decreases k
  {
    if k > 0 {
      SquaredRange(x);
      SquaredRange(y);
      MulMono(x, y, x);
      MulMono(x, y, y);
      DivMono(x * x, y * y, UNIT);
      if NextBit(x) == NextBit(y) {
        RefineMono(NextX(x), NextX(y), k - 1);
      } else {
        RefineBound(NextX(x), k - 1);
      }
    }
  }

  lemma {:induction false} BitsMono(v: nat, w: nat)
    requires 1 <= v <= w
    ensures Bits(v) <= Bits(w)
  {
    if v > 1 { BitsMono(v / 2, w / 2); }
  }

  /** Monotone: the first mantissa bit in which two runs differ decides for the larger value. */
  lemma LogMono(v: nat, w: nat, fraction: nat)
    requires 1 <= v <= w
    ensures Log(v, fraction) <= Log(w, fraction)
  {
    BitsMono(v, w);
    if Bits(v) == Bits(w) {
      MulMono(v, w, UNIT);
      DivMono(v * UNIT, w * UNIT, Pow2(Bits(v)));
      RefineMono(Mantissa(v), Mantissa(w), fraction);
    } else {
      RefineBound(Mantissa(v), fraction);
      MulMono(Bits(v) + 1, Bits(w), Pow2(fraction));
    }
  }

  lemma NextPow2(r: nat, x: nat)
    ensures Pow2(2 * r + NextBit(x)) == (NextBit(x) + 1) * (Pow2(r) * Pow2(r))
  {
    Pow2Add(r, r);
  }

  lemma SquareLower(R: nat, V: nat, x: nat, y: nat)
    requires R * x <= V * UNIT && UNIT * y <= x * x
    ensures (R * R) * y <= (V * V) * UNIT
  {
    MulMono(R * x, V * UNIT, R * x);
    MulMono(R * x, V * UNIT, V * UNIT);
    assert (R * x) * (R * x) == (x * x) * (R * R);
    assert (V * UNIT) * (V * UNIT) == ((V * V) * UNIT) * UNIT;
    MulMono(UNIT * y, x * x, R * R);
    assert (UNIT * y) * (R * R) == ((R * R) * y) * UNIT;
  }

  lemma Regroup(m: nat, a: nat, z: nat)
    ensures (m * a) * z == (m * z) * a && (m * a) * z == a * (m * z)
  {
  }

  /** One squaring keeps 2^r x <= V 2^48. */
  lemma LowerStep(V: nat, r: nat, x: nat)
    requires UNIT <= x < 2 * UNIT && Pow2(r) * x <= V * UNIT
    ensures Pow2(2 * r + NextBit(x)) * NextX(x) <= (V * V) * UNIT
  {
    SquaredRange(x);
    var R, m := Pow2(r), NextBit(x) + 1;
    SquareLower(R, V, x, Squared(x));
    NextPow2(r, x);
    MulMono(m * NextX(x), Squared(x), R * R);
    Regroup(m, R * R, NextX(x));
    assert (R * R) * Squared(x) == Squared(x) * (R * R);
  }

  lemma Split(r: nat, x: nat, k: nat)
    requires k > 0
    ensures r * Pow2(k) + Refine(x, k) == (2 * r + NextBit(x)) * Pow2(k - 1) + Refine(NextX(x), k - 1)
  {
    assert r * (2 * Pow2(k - 1)) == (2 * r) * Pow2(k - 1);
  }

  lemma {:induction false} RefineLower(V: nat, r: nat, x: nat, k: nat)
    requires UNIT <= x < 2 * UNIT && Pow2(r) * x <= V * UNIT
    ensures Pow2(r * Pow2(k) + Refine(x, k)) <= Pow(V, Pow2(k))
    decreases k
  {
    if k == 0 {
      MulMono(UNIT, x, Pow2(r));
      assert Pow(V, 1) == V * Pow(V, 0);
    } else {
      SquaredRange(x);
      LowerStep(V, r, x);
      Split(r, x, k);
      RefineLower(V * V, 2 * r + NextBit(x), NextX(x), k - 1);
      PowSquare(V, Pow2(k - 1));
    }
  }

  lemma StartLower(value: nat)
    requires value >= 1
    ensures Pow2(Bits(value)) * Mantissa(value) <= value * UNIT
  {
  }

  /** The result never exceeds the true logarithm: 2^result <= value^(2^fraction). */
  lemma LogNeverTooLarge(value: nat, fraction: nat)
    requires value >= 1
    ensures Pow2(Log(value, fraction)) <= Pow(value, Pow2(fraction))
  {
    StartLower(value);
    RefineLower(value, Bits(value), Mantissa(value), fraction);
  }

  /** The relative error c / 2^48 at most triples in one squaring while it is small. */
  ghost predicate Above(V: nat, r: nat, x: nat, c: nat) {
    (V * UNIT) * UNIT <= (Pow2(r) * x) * (UNIT + c)
  }

  lemma ErrorGrowth(c: nat)
    requires 8 <= c <= 0x400_0000_0000
    ensures ((UNIT + 1) * (UNIT + 1)) * ((UNIT + c) * (UNIT + c)) <= (UNIT * UNIT) * (UNIT * (UNIT + 3 * c))
  {
    var c2 := c * c;
    MulMono(c, 0x400_0000_0000, c);
    assert (UNIT + c) * (UNIT + c) == UNIT * UNIT + 2 * UNIT * c + c2;
  }

  /** x y bounds: the floor of the square and of the halving cost at most one unit each. */
  lemma FloorCost(x: nat)
    requires UNIT <= x < 2 * UNIT
    ensures (x * x) * UNIT <= ((NextBit(x) + 1) * NextX(x)) * ((UNIT + 1) * (UNIT + 1))
  {
    SquaredRange(x);
    var y, mz := Squared(x), (NextBit(x) + 1) * NextX(x);
    assert x * x <= y * (UNIT + 1) && y * UNIT <= mz * (UNIT + 1);
  }

  lemma UpperStep(V: nat, r: nat, x: nat, c: nat)
    requires UNIT <= x < 2 * UNIT && 8 <= c <= 0x400_0000_0000 && Above(V, r, x, c)
    ensures Above(V * V, 2 * r + NextBit(x), NextX(x), 3 * c)
  {
    var R, m, z := Pow2(r), NextBit(x) + 1, NextX(x);
    var lhs, rhs := (V * UNIT) * UNIT, (R * x) * (UNIT + c);
    MulMono(lhs, rhs, lhs);
    MulMono(lhs, rhs, rhs);
    SquareOfProducts(V, R, x, c);
    FloorCost(x);
    ErrorGrowth(c);
    UpperChain(V * V, R * R, x * x, m * z, (UNIT + c) * (UNIT + c), (UNIT + 1) * (UNIT + 1), c);
    NextPow2(r, x);
    Regroup(m, R * R, z);
  }

  lemma SquareOfProducts(V: nat, R: nat, x: nat, c: nat)
    ensures ((V * UNIT) * UNIT) * ((V * UNIT) * UNIT) == ((V * V) * (UNIT * UNIT)) * (UNIT * UNIT)
    ensures ((R * x) * (UNIT + c)) * ((R * x) * (UNIT + c)) == ((R * R) * (x * x)) * ((UNIT + c) * (UNIT + c))
  {
    assert (V * UNIT) * UNIT == V * (UNIT * UNIT);
    var u2 := UNIT * UNIT;
    assert (V * u2) * (V * u2) == ((V * V) * u2) * u2;
    var d, p := UNIT + c, R * x;
    assert (p * d) * (p * d) == (p * p) * (d * d);
    assert p * p == (R * R) * (x * x);
  }

  lemma Exchange(a: nat, b: nat, c: nat, d: nat)
    ensures (a * b) * (c * d) == ((c * a) * d) * b == (b * d) * (c * a)
  {
  }

  lemma Collect(a: nat, b: nat, c: nat, d: nat)
    ensures (a * (b * c)) * d == ((d * c) * a) * b
  {
    assert (a * (b * c)) * d == (d * c) * (a * b);
  }

  lemma UpperChain(V2: nat, R2: nat, xx: nat, mz: nat, e: nat, w: nat, c: nat)
    requires (V2 * (UNIT * UNIT)) * (UNIT * UNIT) <= (R2 * xx) * e
    requires xx * UNIT <= mz * w
    requires w * e <= (UNIT * UNIT) * (UNIT * (UNIT + 3 * c))
    ensures (V2 * UNIT) * UNIT <= (R2 * mz) * (UNIT + 3 * c)
  {
    var u2, t := UNIT * UNIT, UNIT + 3 * c;
    var goal := (R2 * mz) * t;
    // (V2 u2) u2 UNIT <= R2 e (xx UNIT) <= R2 e mz w <= R2 mz u2 UNIT t
    MulMono(xx * UNIT, mz * w, R2 * e);
    Exchange(xx, UNIT, R2, e);
    Exchange(mz, w, R2, e);
    MulMono(w * e, u2 * (UNIT * t), R2 * mz);
    Collect(u2, UNIT, t, R2 * mz);
    assert ((V2 * u2) * u2) * UNIT <= (goal * u2) * UNIT;
    assert V2 * u2 <= goal;
    assert V2 * u2 == (V2 * UNIT) * UNIT;
  }

  lemma UpperEnd(V: nat, R: nat, x: nat, c: nat)
    requires 0 < R && UNIT <= x < 2 * UNIT && c <= 0x400_0000_0000
    requires (V * UNIT) * UNIT <= (R * x) * (UNIT + c)
    ensures V < 4 * R
  {
    MulMono(UNIT + c, 2 * UNIT, R * x);
    assert (UNIT + c) * (R * x) == (R * x) * (UNIT + c);
    assert R * x < R * (2 * UNIT);
  }

  lemma {:induction false} RefineUpper(V: nat, r: nat, x: nat, c: nat, k: nat)
    requires UNIT <= x < 2 * UNIT && 8 <= c && c * Pow(3, k) <= 0x400_0000_0000 && Above(V, r, x, c)
    ensures Pow(V, Pow2(k)) < Pow2(r * Pow2(k) + Refine(x, k) + 2)
    decreases k
  {
    MulMono(1, Pow(3, k), c);
    if k == 0 {
      UpperEnd(V, Pow2(r), x, c);
      assert Pow(V, 1) == V * Pow(V, 0);
      Pow2Add(r, 2);
    } else {
      SquaredRange(x);
      UpperStep(V, r, x, c);
      Split(r, x, k);
      assert (3 * c) * Pow(3, k - 1) == c * Pow(3, k);
      RefineUpper(V * V, 2 * r + NextBit(x), NextX(x), 3 * c, k - 1);
      PowSquare(V, Pow2(k - 1));
    }
  }

  lemma {:induction false} Pow3Mono(m: nat, n: nat)
    requires m <= n
    ensures Pow(3, m) <= Pow(3, n)
  {
    if m < n { Pow3Mono(m, n - 1); }
  }

  lemma Pow3Plus4(l: nat)
    ensures Pow(3, l + 4) == 81 * Pow(3, l)
  {
    assert Pow(3, l + 2) == 9 * Pow(3, l);
    assert Pow(3, l + 4) == 9 * Pow(3, l + 2);
  }

  lemma ErrorBudget(k: nat)
    requires k <= MAX_FRACTION
    ensures 8 * Pow(3, k) <= 0x400_0000_0000
  {
    var n: nat :| n == MAX_FRACTION;
    Pow3Mono(k, n);
    Pow3Plus4(n - 4); Pow3Plus4(n - 8); Pow3Plus4(n - 12);
    Pow3Plus4(n - 16); Pow3Plus4(n - 20); Pow3Plus4(n - 24);
  }

  lemma StartUpper(value: nat)
    requires value >= 1
    ensures Above(value, Bits(value), Mantissa(value), 8)
  {
    var p, x := Pow2(Bits(value)), Mantissa(value);
    assert value * UNIT < (x + 1) * p;
    assert (value * UNIT) * UNIT <= ((x + 1) * p) * UNIT by { MulMono(value * UNIT, (x + 1) * p, UNIT); }
    assert ((x + 1) * p) * UNIT == ((x + 1) * UNIT) * p;
    MulMono((x + 1) * UNIT, x * (UNIT + 8), p);
    assert (x * (UNIT + 8)) * p == (p * x) * (UNIT + 8);
  }

  /** And is less than two units in the last place below it: value^(2^fraction) < 2^(result + 2). */
  lemma LogNeverTooSmall(value: nat, fraction: nat)
    requires value >= 1 && fraction <= MAX_FRACTION
    ensures Pow(value, Pow2(fraction)) < Pow2(Log(value, fraction) + 2)
  {
    StartUpper(value);
    ErrorBudget(fraction);
    RefineUpper(value, Bits(value), Mantissa(value), 8, fraction);
  }
}
