/** Fixed-width integers as bytes, in both byte orders. */
module ByteCodec {
  import Powers

  type Byte = x: int | 0 <= x < 256
  type Bytes = seq<Byte>

  function Pow256(k: nat): (p: nat)
    ensures p > 0
  {
    if k == 0 then 1 else 256 * Pow256(k - 1)
  }

  function Big(s: Bytes): (n: nat)
    ensures n < Pow256(|s|)
  {
    if s == [] then 0 else 256 * Big(s[..|s| - 1]) + s[|s| - 1]
  }

  function ToBig(n: nat, k: nat): (s: Bytes)
    ensures |s| == k
  {
    if k == 0 then [] else ToBig(n / 256, k - 1) + [n % 256]
  }

  function Little(s: Bytes): (n: nat)
    ensures n < Pow256(|s|)
  {
    if s == [] then 0 else s[0] + 256 * Little(s[1..])
  }

  function ToLittle(n: nat, k: nat): (s: Bytes)
    ensures |s| == k
  {
    if k == 0 then [] else [n % 256] + ToLittle(n / 256, k - 1)
  }

  lemma {:induction false} BigOfToBig(n: nat, k: nat)
    requires n < Pow256(k)
    ensures Big(ToBig(n, k)) == n
  {
    if k > 0 {
      BigOfToBig(n / 256, k - 1);
      assert ToBig(n, k)[..k - 1] == ToBig(n / 256, k - 1);
    }
  }

  lemma {:induction false} ToBigOfBig(s: Bytes)
    ensures ToBig(Big(s), |s|) == s
  {
    if s != [] {
      ToBigOfBig(s[..|s| - 1]);
      assert Big(s) / 256 == Big(s[..|s| - 1]);
    }
  }

  lemma {:induction false} LittleOfToLittle(n: nat, k: nat)
    requires n < Pow256(k)
    ensures Little(ToLittle(n, k)) == n
  {
    if k > 0 {
      LittleOfToLittle(n / 256, k - 1);
      assert ToLittle(n, k)[1..] == ToLittle(n / 256, k - 1);
    }
  }

  lemma {:induction false} ToLittleOfLittle(s: Bytes)
    ensures ToLittle(Little(s), |s|) == s
  {
    if s != [] {
      ToLittleOfLittle(s[1..]);
      assert Little(s) / 256 == Little(s[1..]);
    }
  }

  /** Byte i of a little-endian number counts 256^i. */
  lemma {:induction false} LittleDigit(s: Bytes, i: nat)
    requires i < |s|
    ensures Little(s) / Pow256(i) % 256 == s[i]
  {
    if i > 0 {
      LittleDigit(s[1..], i - 1);
      Nested(Little(s), Pow256(i - 1));
      assert Little(s) / 256 == Little(s[1..]);
    }
  }

  lemma Nested(n: nat, p: nat)
    requires p > 0
    ensures n / (256 * p) == n / 256 / p
  {
    var q, r, k := n / (256 * p), n / 256, n / 256 / p;
    assert r == k * p + r % p;
    assert 256 * (k * p) == k * (256 * p);
    assert k * (256 * p) <= n < (k + 1) * (256 * p) by {
      assert (k + 1) * (256 * p) == k * (256 * p) + 256 * p;
    }
    Powers.QuotientIs(n, 256 * p, k);
  }

  function Reversed(s: Bytes): (r: Bytes)
    ensures |r| == |s|
  {
    seq(|s|, i requires 0 <= i < |s| => s[|s| - 1 - i])
  }

  /** A big-endian number is the little-endian number of the bytes in reverse. */
  lemma {:induction false} BigIsReversedLittle(s: Bytes)
    ensures Big(s) == Little(Reversed(s))
  {
    if s != [] {
      BigIsReversedLittle(s[..|s| - 1]);
      assert Reversed(s)[1..] == Reversed(s[..|s| - 1]);
    }
  }
}
