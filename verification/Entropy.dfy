/** The entropy facet: base-2 entropy of a list of labels in fixed point, scaled so that four
    equally frequent labels score 10000. */
module Entropy {
  import opened Log2
  import opened Powers

  const BPS: int := 10_000
  const TARGET_CATEGORIES: nat := 4

  function Clamp(n: int): (r: int)
    ensures 0 <= r <= BPS
  {
    if n < 0 then 0 else if n > BPS then BPS else n
  }

  /** BigInt division truncates towards zero. */
  function Truncate(a: int, b: int): int
    requires b > 0
  {
    if a >= 0 then a / b else -((-a) / b)
  }

  ghost function CountSum<V>(m: multiset<V>, keys: set<V>): nat {
    if keys == {} then 0 else var x :| x in keys; m[x] + CountSum(m, keys - {x})
  }

  ghost function Terms<V>(m: multiset<V>, keys: set<V>, fraction: nat): nat
    requires forall x :: x in keys ==> m[x] >= 1
  {
    if keys == {} then 0
    else var x :| x in keys; m[x] * Log(m[x], fraction) + Terms(m, keys - {x}, fraction)
  }

  ghost function Labels<V>(m: multiset<V>): set<V> { set x | x in m }

  /** The entropy before scaling. */
  ghost function Raw<V>(m: multiset<V>, fraction: nat): int
    requires |m| >= 1
  {
    Log(|m|, fraction) - Terms(m, Labels(m), fraction) / |m|
  }

  /** A function of the multiset of labels, so of the labels in any order. */
  ghost function Score<V>(m: multiset<V>, fraction: nat): int {
    if |m| < 2 then 0
    else
      LogPositive(fraction);
      Clamp(Truncate(Raw(m, fraction) * BPS, Log(TARGET_CATEGORIES, fraction)))
  }

  lemma LogPositive(fraction: nat)
    ensures Log(TARGET_CATEGORIES, fraction) > 0
  {
    var b := Bits(TARGET_CATEGORIES);
    assert b == 1 + Bits(2) && Bits(2) == 1 + Bits(1);
  }

  lemma {:induction false} TermsRemove<V>(m: multiset<V>, keys: set<V>, x: V, fraction: nat)
    requires x in keys && forall y :: y in keys ==> m[y] >= 1
    ensures Terms(m, keys, fraction) == m[x] * Log(m[x], fraction) + Terms(m, keys - {x}, fraction)
    decreases |keys|
  {
    var y :| y in keys && Terms(m, keys, fraction) == m[y] * Log(m[y], fraction) + Terms(m, keys - {y}, fraction);
    if y != x {
      TermsRemove(m, keys - {y}, x, fraction);
      TermsRemove(m, keys - {x}, y, fraction);
      assert keys - {y} - {x} == keys - {x} - {y};
    }
  }

  method Count<V(==)>(values: seq<V>) returns (counts: map<V, nat>)
    ensures counts.Keys == Labels(multiset(values))
    ensures forall x :: x in counts ==> counts[x] == multiset(values)[x]
  {
    counts := map[];
    for i := 0 to |values|
      invariant counts.Keys == Labels(multiset(values[..i]))
      invariant forall x :: x in counts ==> counts[x] == multiset(values[..i])[x]
    {
      var x := values[i];
      assert values[..i + 1] == values[..i] + [x];
      counts := counts[x := (if x in counts then counts[x] else 0) + 1];
    }
    assert values[..|values|] == values;
  }

  /** Taking one label's term out of the sum. */
  lemma NextTerm<V>(m: multiset<V>, rest: set<V>, x: V, terms: nat, fraction: nat)
    requires x in rest && forall y :: y in rest ==> m[y] >= 1
    ensures terms + Terms(m, rest, fraction) ==
      (terms + m[x] * Log(m[x], fraction)) + Terms(m, rest - {x}, fraction)
  {
    TermsRemove(m, rest, x, fraction);
  }

  method SumTerms<V(==)>(counts: map<V, nat>, ghost m: multiset<V>, fraction: nat) returns (terms: nat)
    requires counts.Keys == Labels(m) && forall x :: x in counts ==> counts[x] == m[x]
    ensures terms == Terms(m, Labels(m), fraction)
  {
    var rest := counts.Keys;
    terms := 0;
    while rest != {}
      invariant rest <= counts.Keys
      invariant terms + Terms(m, rest, fraction) == Terms(m, Labels(m), fraction)
      decreases |rest|
    {
      var x :| x in rest;
      NextTerm(m, rest, x, terms, fraction);
      var l := Log2.Compute(counts[x], fraction);
      terms := terms + counts[x] * l;
      rest := rest - {x};
    }
  }

  method Compute<V(==)>(values: seq<V>, fraction: nat) returns (score: int)
    ensures score == Score(multiset(values), fraction)
  {
    if |values| < 2 { return 0; }
    var counts := Count(values);
    var terms := SumTerms(counts, multiset(values), fraction);
    var n := |values|;
    var top := Log2.Compute(n, fraction);
    var h := top - terms / n;
    var scale := Log2.Compute(TARGET_CATEGORIES, fraction);
    LogPositive(fraction);
    score := Clamp(Truncate(h * BPS, scale));
  }

  // ---------- what the score means ----------

  lemma {:induction false} CountSumRemove<V>(m: multiset<V>, keys: set<V>, x: V)
    requires x in keys
    ensures CountSum(m, keys) == m[x] + CountSum(m, keys - {x})
    decreases |keys|
  {
    var y :| y in keys && CountSum(m, keys) == m[y] + CountSum(m, keys - {y});
    if y != x {
      CountSumRemove(m, keys - {y}, x);
      CountSumRemove(m, keys - {x}, y);
      assert keys - {y} - {x} == keys - {x} - {y};
    }
  }

  lemma {:induction false} CountSumSame<V>(m: multiset<V>, m': multiset<V>, keys: set<V>)
    requires forall x :: x in keys ==> m[x] == m'[x]
    ensures CountSum(m, keys) == CountSum(m', keys)
    decreases |keys|
  {
    if keys != {} {
      var x :| x in keys;
      CountSumRemove(m, keys, x);
      CountSumRemove(m', keys, x);
      CountSumSame(m, m', keys - {x});
    }
  }

  lemma {:induction false} CountsAddUp<V>(m: multiset<V>)
    ensures CountSum(m, Labels(m)) == |m|
    decreases |m|
  {
    if |m| > 0 {
      var x :| x in m;
      var rest := m[x := 0];
      assert Labels(rest) == Labels(m) - {x};
      CountsAddUp(rest);
      CountSumRemove(m, Labels(m), x);
      CountSumSame(m, rest, Labels(rest));
    } else {
      assert m == multiset{} && Labels(m) == {};
    }
  }

  lemma Multiplicity<V>(m: multiset<V>, x: V)
    ensures m[x] <= |m|
  {
    assert |m[x := 0]| == |m| - m[x];
  }

  lemma {:induction false} TermsBound<V>(m: multiset<V>, keys: set<V>, fraction: nat)
    requires |m| >= 1 && forall x :: x in keys ==> m[x] >= 1
    ensures Terms(m, keys, fraction) <= CountSum(m, keys) * Log(|m|, fraction)
    decreases |keys|
  {
    if keys != {} {
      var x :| x in keys;
      TermsRemove(m, keys, x, fraction);
      CountSumRemove(m, keys, x);
      TermsBound(m, keys - {x}, fraction);
      Multiplicity(m, x);
      LogMono(m[x], |m|, fraction);
      AddProducts(m[x], Log(m[x], fraction), CountSum(m, keys - {x}), Log(|m|, fraction));
    }
  }

  lemma AddProducts(a: nat, la: nat, b: nat, l: nat)
    requires la <= l
    ensures a * la + b * l <= (a + b) * l
  {
    assert a * la <= a * l by { MulMono(la, l, a); }
  }

  lemma QuotientBound(t: nat, n: nat, l: nat)
    requires n > 0 && t <= n * l
    ensures t / n <= l
  {
    assert (t / n) * n <= t;
    if l + 1 <= t / n { MulMono(l + 1, t / n, n); }
  }

  lemma ExactQuotient(n: nat, l: nat)
    requires n > 0
    ensures n * l / n == l
  {
    QuotientBound(n * l, n, l);
    assert n * l < (n * l / n + 1) * n;
    if n * l / n + 1 <= l { MulMono(n * l / n + 1, l, n); }
  }

  /** The raw entropy of any labels is never negative, so the clamp never hides a negative value. */
  lemma NeverNegative<V>(m: multiset<V>, fraction: nat)
    requires |m| >= 1
    ensures Raw(m, fraction) >= 0
  {
    TermsBound(m, Labels(m), fraction);
    CountsAddUp(m);
    QuotientBound(Terms(m, Labels(m), fraction), |m|, Log(|m|, fraction));
  }

  /** Labels that are all equal score nothing. */
  lemma AllEqualScoresZero<V>(m: multiset<V>, v: V, fraction: nat)
    requires forall x :: x in m ==> x == v
    ensures Score(m, fraction) == 0
  {
    if |m| >= 2 {
      var x :| x in m;
      assert Labels(m) == {v};
      assert {v} - {v} == {};
      CountsAddUp(m);
      CountSumRemove(m, {v}, v);
      TermsRemove(m, {v}, v, fraction);
      ExactQuotient(|m|, Log(|m|, fraction));
      assert Raw(m, fraction) == 0;
      LogPositive(fraction);
    }
  }

  /** c of each label. */
  ghost predicate Even<V>(m: multiset<V>, keys: set<V>, c: nat) { forall x :: x in keys ==> m[x] == c }

  lemma {:induction false} EvenTerms<V>(m: multiset<V>, keys: set<V>, c: nat, fraction: nat)
    requires c >= 1 && Even(m, keys, c)
    ensures Terms(m, keys, fraction) == Times(|keys|, Times(c, Log(c, fraction)))
    ensures CountSum(m, keys) == Times(|keys|, c)
    decreases |keys|
  {
    if keys != {} {
      var x :| x in keys;
      SumsNext(m, keys, x, fraction);
      EvenTerms(m, keys - {x}, c, fraction);
      TimesNext(|keys|, Times(c, Log(c, fraction)));
      TimesNext(|keys|, c);
    }
  }

  /** 2^j labels, each equally often, have an entropy of exactly j bits, ... */
  lemma EvenLabels<V>(m: multiset<V>, c: nat, j: nat, fraction: nat)
    requires c >= 1 && Even(m, Labels(m), c) && |Labels(m)| == Pow2(j)
    ensures |m| == Times(Pow2(j), c) >= 1 && Raw(m, fraction) == Times(j, Pow2(fraction))
  {
    EvenTerms(m, Labels(m), c, fraction);
    CountsAddUp(m);
    LogOfShift(c, j, fraction);
    EvenMean(Pow2(j), c, Log(c, fraction));
  }

  lemma EvenMean(k: nat, c: nat, l: nat)
    requires Times(k, c) >= 1
    ensures Times(k, Times(c, l)) / Times(k, c) == l
  {
    assert k * (c * l) == (k * c) * l;
    ExactQuotient(k * c, l);
  }

  /** ... and score 5000 a bit up to four labels, which is the whole scale. */
  lemma EvenLabelsScore<V>(m: multiset<V>, c: nat, j: nat, fraction: nat)
    requires c >= 1 && Even(m, Labels(m), c) && |Labels(m)| == Pow2(j)
    ensures Score(m, fraction) == if j >= 2 then 10_000 else j * 5_000
  {
    EvenLabels(m, c, j, fraction);
    LogOfPow2(2, fraction);
    assert Pow2(2) == TARGET_CATEGORIES;
    if |m| >= 2 {
      HalfScale(j, Pow2(fraction));
    } else {
      SmallTimes(Pow2(j), c);
      assert j > 0 ==> Pow2(j) >= 2;
    }
  }

  lemma SmallTimes(k: nat, c: nat)
    requires c >= 1 && Times(k, c) < 2
    ensures k < 2
  {
    CancelLess(k, 2, c);
  }

  lemma HalfScale(j: nat, f: nat)
    requires f >= 1
    ensures Clamp(Truncate(Times(j, f) * BPS, 2 * f)) == if j >= 2 then 10_000 else j * 5_000
  {
    assert (j * f) * 10_000 == (j * 5_000) * (2 * f);
    ExactQuotient(2 * f, j * 5_000);
    assert (2 * f) * (j * 5_000) == (j * f) * 10_000;
  }

  // ---------- the error of the entropy ----------

  /** v^(c 2^fraction), the exact counterpart of 2^(c Log(v)). */
  function Exact(v: nat, c: nat, fraction: nat): nat { Pow(v, Times(c, Pow2(fraction))) }

  /** The product of c^(c 2^fraction) over the counts c. */
  ghost function Product<V>(m: multiset<V>, keys: set<V>, fraction: nat): nat {
    if keys == {} then 1
    else var x :| x in keys; Times(Exact(m[x], m[x], fraction), Product(m, keys - {x}, fraction))
  }

  lemma Exchanged(p: nat, q: nat, rest: nat)
    ensures Times(p, Times(q, rest)) == Times(q, Times(p, rest))
  {
    assert p * (q * rest) == q * (p * rest);
  }

  lemma {:induction false} ProductRemove<V>(m: multiset<V>, keys: set<V>, x: V, fraction: nat)
    requires x in keys
    ensures Product(m, keys, fraction) ==
      Times(Exact(m[x], m[x], fraction), Product(m, keys - {x}, fraction))
    decreases |keys|
  {
    var y :| y in keys &&
      Product(m, keys, fraction) == Times(Exact(m[y], m[y], fraction), Product(m, keys - {y}, fraction));
    if y != x {
      ProductRemove(m, keys - {y}, x, fraction);
      ProductRemove(m, keys - {x}, y, fraction);
      assert keys - {y} - {x} == keys - {x} - {y};
      Exchanged(Exact(m[x], m[x], fraction), Exact(m[y], m[y], fraction), Product(m, keys - {y} - {x}, fraction));
    }
  }

  /** c times the logarithm of v brackets that of v^c. */
  lemma TermBounds(v: nat, c: nat, fraction: nat)
    requires v >= 1 && fraction <= MAX_FRACTION
    ensures Pow2(Times(c, Log(v, fraction))) <= Exact(v, c, fraction)
    ensures Exact(v, c, fraction) <= Pow2(Times(c, Log(v, fraction)) + 2 * c)
  {
    LogNeverTooLarge(v, fraction);
    LogNeverTooSmall(v, fraction);
    RaiseBounds(v, c, Log(v, fraction), Pow2(fraction));
  }

  lemma RaiseBounds(v: nat, c: nat, l: nat, f: nat)
    requires Pow2(l) <= Pow(v, f) <= Pow2(l + 2)
    ensures Pow2(Times(c, l)) <= Pow(v, Times(c, f)) <= Pow2(Times(c, l) + 2 * c)
  {
    PowMono(Pow2(l), Pow(v, f), c);
    PowMono(Pow(v, f), Pow2(l + 2), c);
    Pow2Pow(l, c);
    Pow2Pow(l + 2, c);
    PowPow(v, f, c);
    assert Times(c, l + 2) == Times(c, l) + 2 * c;
  }

  /** 2^t <= p <= 2^(t + 2 s) */
  ghost predicate Brackets(p: nat, t: nat, s: nat) { Pow2(t) <= p <= Pow2(t + 2 * s) }

  /** One more factor in the product, one more term in the sum. */
  lemma ProductStep(p: nat, q: nat, a: nat, t: nat, c: nat, s: nat)
    requires Brackets(p, a, c) && Brackets(q, t, s)
    ensures Brackets(Times(p, q), a + t, c + s)
  {
    MulBoth(Pow2(a), p, Pow2(t), q);
    MulBoth(p, Pow2(a + 2 * c), q, Pow2(t + 2 * s));
    Pow2Add(a, t);
    Pow2Add(a + 2 * c, t + 2 * s);
  }

  lemma SumsNext<V>(m: multiset<V>, keys: set<V>, x: V, fraction: nat)
    requires x in keys && forall y :: y in keys ==> m[y] >= 1
    ensures Terms(m, keys, fraction) == Times(m[x], Log(m[x], fraction)) + Terms(m, keys - {x}, fraction)
    ensures CountSum(m, keys) == m[x] + CountSum(m, keys - {x})
  {
    TermsRemove(m, keys, x, fraction);
    CountSumRemove(m, keys, x);
  }

  lemma {:induction false} ProductBounds<V>(m: multiset<V>, keys: set<V>, fraction: nat)
    requires (forall x :: x in keys ==> m[x] >= 1) && fraction <= MAX_FRACTION
    ensures Brackets(Product(m, keys, fraction), Terms(m, keys, fraction), CountSum(m, keys))
    decreases |keys|
  {
    if keys != {} {
      var x :| x in keys;
      var rest := keys - {x};
      ProductBounds(m, rest, fraction);
      ProductRemove(m, keys, x, fraction);
      SumsNext(m, keys, x, fraction);
      TermBounds(m[x], m[x], fraction);
      ProductStep(Exact(m[x], m[x], fraction), Product(m, rest, fraction), Times(m[x], Log(m[x], fraction)),
                  Terms(m, rest, fraction), m[x], CountSum(m, rest));
    }
  }

  /** The floored mean of the terms costs less than one unit a label. */
  lemma RawBounds<V>(m: multiset<V>, fraction: nat)
    requires |m| >= 1
    ensures var n, t := |m|, Terms(m, Labels(m), fraction);
      Raw(m, fraction) >= 0 && t <= Times(n, Log(n, fraction)) &&
      Times(n, Log(n, fraction)) - t <= Times(n, Raw(m, fraction)) <= Times(n, Log(n, fraction)) - t + n - 1
  {
    NeverNegative(m, fraction);
    TermsBound(m, Labels(m), fraction);
    CountsAddUp(m);
    MeanCost(|m|, Log(|m|, fraction), Terms(m, Labels(m), fraction));
  }

  lemma MeanCost(n: nat, l: nat, t: nat)
    requires n >= 1 && t <= n * l
    ensures t / n <= l && t <= Times(n, l)
    ensures Times(n, l) - t <= Times(n, l - t / n) <= Times(n, l) - t + n - 1
  {
    QuotientBound(t, n, l);
    var q := t / n;
    assert q * n <= t <= q * n + n - 1;
    assert n * (l - q) == n * l - q * n;
  }

  /** n times the entropy before scaling lies within three n units of the exact n 2^f H, where
      2^(n 2^f H) is n^(n 2^f) over the product of the c^(c 2^f). */
  lemma RawNearlyExact<V>(m: multiset<V>, fraction: nat)
    requires |m| >= 1 && fraction <= MAX_FRACTION
    ensures Raw(m, fraction) >= 0
    ensures var n, exact := |m|, Product(m, Labels(m), fraction);
      Exact(n, n, fraction) <= Times(Pow2(Times(n, Raw(m, fraction)) + 2 * n), exact) &&
      Times(Pow2(Times(n, Raw(m, fraction))), exact) <= Times(Pow2(3 * n - 1), Exact(n, n, fraction))
  {
    var n := |m|;
    RawBounds(m, fraction);
    TermBounds(n, n, fraction);
    ProductBounds(m, Labels(m), fraction);
    CountsAddUp(m);
    Sandwich(n, Times(n, Raw(m, fraction)), Times(n, Log(n, fraction)), Terms(m, Labels(m), fraction),
             Exact(n, n, fraction), Product(m, Labels(m), fraction));
  }

  lemma Sandwich(n: nat, raw: nat, top: nat, terms: nat, power: nat, product: nat)
    requires n >= 1 && terms <= top && top - terms <= raw <= top - terms + n - 1
    requires Pow2(top) <= power <= Pow2(top + 2 * n)
    requires Pow2(terms) <= product <= Pow2(terms + 2 * n)
    ensures power <= Times(Pow2(raw + 2 * n), product)
    ensures Times(Pow2(raw), product) <= Times(Pow2(3 * n - 1), power)
  {
    Pow2Mono(top + 2 * n, raw + 2 * n + terms);
    Pow2Add(raw + 2 * n, terms);
    MulBoth(Pow2(raw + 2 * n), Pow2(raw + 2 * n), Pow2(terms), product);
    Pow2Mono(raw + (terms + 2 * n), (3 * n - 1) + top);
    Pow2Add(raw, terms + 2 * n);
    Pow2Add(3 * n - 1, top);
    MulBoth(Pow2(raw), Pow2(raw), product, Pow2(terms + 2 * n));
    MulBoth(Pow2(3 * n - 1), Pow2(3 * n - 1), Pow2(top), power);
  }

  // ---------- the score depends on the counts alone ----------

  ghost predicate Injective<V(!new), W>(f: V -> W) {
    forall x, y :: f(x) == f(y) ==> x == y
  }

  ghost function Image<V, W>(f: V -> W, keys: set<V>): set<W> { set x | x in keys :: f(x) }

  lemma {:induction false} TermsRenamed<V(!new), W>(m: multiset<V>, n: multiset<W>, f: V -> W, keys: set<V>,
                                                   fraction: nat)
    requires Injective(f) && forall x :: x in keys ==> m[x] == n[f(x)] >= 1
    ensures forall y :: y in Image(f, keys) ==> n[y] >= 1
    ensures Terms(n, Image(f, keys), fraction) == Terms(m, keys, fraction)
    decreases |keys|
  {
    if keys == {} {
      assert Image(f, keys) == {};
    } else {
      var x :| x in keys;
      assert Image(f, keys - {x}) == Image(f, keys) - {f(x)};
      TermsRenamed(m, n, f, keys - {x}, fraction);
      TermsRemove(m, keys, x, fraction);
      TermsRemove(n, Image(f, keys), f(x), fraction);
    }
  }

  function Renamed<V, W>(f: V -> W, labels: seq<V>): (r: seq<W>)
    ensures |r| == |labels|
  {
    seq(|labels|, i requires 0 <= i < |labels| => f(labels[i]))
  }

  lemma {:induction false} CountRenamed<V(!new), W>(f: V -> W, labels: seq<V>, x: V)
    requires Injective(f)
    ensures multiset(Renamed(f, labels))[f(x)] == multiset(labels)[x]
  {
    if labels != [] {
      var n := |labels| - 1;
      CountRenamed(f, labels[..n], x);
      assert labels == labels[..n] + [labels[n]];
      assert Renamed(f, labels) == Renamed(f, labels[..n]) + [f(labels[n])];
    }
  }

  lemma LabelsRenamed<V(!new), W>(f: V -> W, labels: seq<V>)
    requires Injective(f)
    ensures Labels(multiset(Renamed(f, labels))) == Image(f, Labels(multiset(labels)))
  {
    var renamed := Renamed(f, labels);
    forall y | y in Labels(multiset(renamed)) ensures y in Image(f, Labels(multiset(labels))) {
      assert y in renamed;
      var i :| 0 <= i < |renamed| && renamed[i] == y;
      assert labels[i] in multiset(labels);
    }
    forall x | x in Labels(multiset(labels)) ensures f(x) in Labels(multiset(renamed)) {
      CountRenamed(f, labels, x);
    }
  }

  /** Renaming the labels, in whatever order they come, changes nothing: only how often each occurs counts. */
  lemma OnlyCountsMatter<V(!new), W(!new)>(a: seq<V>, f: V -> W, b: seq<W>, fraction: nat)
    requires Injective(f) && multiset(b) == multiset(Renamed(f, a))
    ensures Score(multiset(b), fraction) == Score(multiset(a), fraction)
  {
    var m, n := multiset(a), multiset(Renamed(f, a));
    assert |m| == |a| == |Renamed(f, a)| == |n|;
    LabelsRenamed(f, a);
    forall x | x in Labels(m) ensures m[x] == n[f(x)] >= 1 { CountRenamed(f, a, x); }
    TermsRenamed(m, n, f, Labels(m), fraction);
  }
}
