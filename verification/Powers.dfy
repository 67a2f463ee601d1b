/** Powers of naturals. */
module Powers {
  function Pow(b: nat, e: nat): (p: nat)
    ensures b > 0 ==> p > 0
  {
    if e == 0 then 1 else b * Pow(b, e - 1)
  }

  function Pow2(l: nat): (p: nat)
    ensures p > 0
  {
    if l == 0 then 1 else 2 * Pow2(l - 1)
  }

  lemma {:induction false} PowAdd(b: nat, m: nat, n: nat)
    ensures Pow(b, m + n) == Pow(b, m) * Pow(b, n)
  {
    if m > 0 {
      PowAdd(b, m - 1, n);
      assert Pow(b, m + n) == b * (Pow(b, m - 1) * Pow(b, n));
    }
  }

  lemma {:induction false} Pow2Add(m: nat, n: nat)
    ensures Pow2(m + n) == Pow2(m) * Pow2(n)
  {
    if m > 0 { Pow2Add(m - 1, n); }
  }

  lemma Pow2Plus4(l: nat)
    ensures Pow2(l + 4) == 16 * Pow2(l)
  {
    assert Pow2(l + 2) == 4 * Pow2(l);
    assert Pow2(l + 4) == 4 * Pow2(l + 2);
  }

  lemma {:induction false} Pow2Mono(m: nat, n: nat)
    requires m <= n
    ensures Pow2(m) <= Pow2(n)
  {
    if m < n { Pow2Mono(m, n - 1); }
  }

  lemma MulMono(a: nat, b: nat, c: nat)
    requires a <= b
    ensures a * c <= b * c
  {
  }

  lemma CancelLess(a: nat, b: nat, d: nat)
    requires a * d < b * d
    ensures a < b
  {
    if b <= a { MulMono(b, a, d); }
  }

  lemma QuotientIs(n: nat, d: nat, q: nat)
    requires d > 0 && q * d <= n < (q + 1) * d
    ensures n / d == q
  {
    var r := n / d;
    assert r * d <= n < (r + 1) * d;
    CancelLess(r, q + 1, d);
    CancelLess(q, r + 1, d);
  }

  lemma DivMono(a: nat, b: nat, d: nat)
    requires a <= b && d > 0
    ensures a / d <= b / d
  {
    assert (a / d) * d <= a && b < (b / d + 1) * d;
    CancelLess(a / d, b / d + 1, d);
  }

  /** A power of a square. */
  lemma {:induction false} PowSquare(b: nat, n: nat)
    ensures Pow(b * b, n) == Pow(b, 2 * n)
  {
    if n > 0 {
      PowSquare(b, n - 1);
      assert Pow(b, 2 * n) == b * Pow(b, 2 * n - 1);
      assert Pow(b, 2 * n - 1) == b * Pow(b, 2 * (n - 1));
      assert b * (b * Pow(b, 2 * (n - 1))) == (b * b) * Pow(b, 2 * (n - 1));
    }
  }

  /** A product of naturals, as one. */
  function Times(c: nat, m: nat): nat { c * m }

  lemma TimesNext(c: nat, m: nat)
    requires c > 0
    ensures Times(c, m) == m + Times(c - 1, m)
  {
  }

  lemma {:induction false} PowPow(b: nat, m: nat, c: nat)
    ensures Pow(b, Times(c, m)) == Pow(Pow(b, m), c)
  {
    if c > 0 {
      PowPow(b, m, c - 1);
      TimesNext(c, m);
      PowAdd(b, m, Times(c - 1, m));
    }
  }

  lemma {:induction false} Pow2Pow(m: nat, c: nat)
    ensures Pow2(Times(c, m)) == Pow(Pow2(m), c)
  {
    if c > 0 {
      Pow2Pow(m, c - 1);
      TimesNext(c, m);
      Pow2Add(m, Times(c - 1, m));
    }
  }

  lemma {:induction false} PowMono(a: nat, b: nat, c: nat)
    requires a <= b
    ensures Pow(a, c) <= Pow(b, c)
  {
    if c > 0 {
      PowMono(a, b, c - 1);
      MulMono(a, b, Pow(a, c - 1));
      MulMono(Pow(a, c - 1), Pow(b, c - 1), b);
    }
  }

  lemma MulBoth(a: nat, b: nat, c: nat, d: nat)
    requires a <= b && c <= d
    ensures a * c <= b * d
  {
    MulMono(a, b, c);
    MulMono(c, d, b);
  }
}
