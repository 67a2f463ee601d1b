/** Base58 of 32-byte values: the firmware's byte-wise decoder against the relay's big-integer
    encoder. */
module Base58 {
  import opened Powers

  /** Texts are strings of ASCII codes. */
  type Text = seq<int>

  /** The alphabet by ranges of codes: no '0', 'I', 'O' or 'l'. */
  function Letter(d: nat): int
    requires d < 58
  {
    if d < 9 then 49 + d
    else if d < 17 then 56 + d
    else if d < 22 then 57 + d
    else if d < 33 then 58 + d
    else if d < 44 then 64 + d
    else 65 + d
  }

  /** The ranges, in order, spell the alphabet. */
  lemma LettersSpellAlphabet()
    ensures forall d :: 0 <= d < 9 ==> Letter(d) == "123456789"[d] as int
    ensures forall d :: 0 <= d < 8 ==> Letter(9 + d) == "ABCDEFGH"[d] as int
    ensures forall d :: 0 <= d < 5 ==> Letter(17 + d) == "JKLMN"[d] as int
    ensures forall d :: 0 <= d < 11 ==> Letter(22 + d) == "PQRSTUVWXYZ"[d] as int
    ensures forall d :: 0 <= d < 11 ==> Letter(33 + d) == "abcdefghijk"[d] as int
    ensures forall d :: 0 <= d < 14 ==> Letter(44 + d) == "mnopqrstuvwxyz"[d] as int
  {
  }

  datatype Decoded = Ok(out: seq<nat>) | InvalidArg | InvalidSize

  predicate Below(s: seq<int>, base: nat) {
    forall i :: 0 <= i < |s| ==> 0 <= s[i] < base
  }

  predicate Radix(base: nat) { base == 58 || base == 256 }

  /** The number a digit string writes in a base, most significant digit first. */
  function Number(s: seq<int>, base: nat): (n: nat)
    requires Radix(base) && Below(s, base)
  {
    if s == [] then 0 else Number(s[..|s| - 1], base) * base + s[|s| - 1]
  }

  /** The base-58 digits of n without a leading zero. */
  function Digits(n: nat): (s: seq<int>)
    ensures Below(s, 58)
  {
    if n == 0 then [] else Digits(n / 58) + [n % 58]
  }

  function Zeros(s: seq<int>): (k: nat)
    ensures k <= |s|
    ensures forall i :: 0 <= i < k ==> s[i] == 0
    ensures k < |s| ==> s[k] != 0
  {
    if s == [] || s[0] != 0 then 0 else 1 + Zeros(s[1..])
  }

  function ZeroDigits(k: nat): (s: seq<int>)
    ensures |s| == k && forall i :: 0 <= i < k ==> s[i] == 0
  {
    seq(k, _ => 0)
  }

  function Chars(s: seq<int>): (t: Text)
    requires Below(s, 58)
    ensures |t| == |s|
  {
    seq(|s|, i requires 0 <= i < |s| => Letter(s[i]))
  }

  /** The number without leading zeros, behind one zero digit (a '1') per leading zero byte. */
  function EncodedValues(b: seq<int>): (s: seq<int>)
    requires Below(b, 256)
    ensures Below(s, 58)
  {
    ZeroDigits(Zeros(b)) + Digits(Number(b, 256))
  }

  /** What the encoder writes. */
  function Encode(b: seq<int>): Text
    requires Below(b, 256)
  {
    Chars(EncodedValues(b))
  }

  // ---------- positional notation ----------

  lemma NumberAppend(s: seq<int>, d: int, base: nat)
    requires Radix(base) && Below(s, base) && 0 <= d < base
    ensures Below(s + [d], base) && Number(s + [d], base) == Number(s, base) * base + d
  {
    assert (s + [d])[..|s|] == s;
  }

  lemma {:induction false} DigitsNumber(n: nat)
    ensures Number(Digits(n), 58) == n
    ensures n > 0 ==> Digits(n) != [] && Digits(n)[0] != 0
  {
    if n > 0 {
      DigitsNumber(n / 58);
      NumberAppend(Digits(n / 58), n % 58, 58);
    }
  }

  lemma {:induction false} NumberBound(s: seq<int>)
    requires Below(s, 256)
    ensures Number(s, 256) < Pow(256, |s|)
  {
    if s != [] { NumberBound(s[..|s| - 1]); }
  }

  lemma {:induction false} NumberMono(s: seq<int>, k: nat, base: nat)
    requires Radix(base) && Below(s, base) && k <= |s|
    ensures Number(s[..k], base) <= Number(s, base)
  {
    if k < |s| {
      assert s[..|s| - 1][..k] == s[..k];
      NumberMono(s[..|s| - 1], k, base);
      MulMono(1, base, Number(s[..|s| - 1], base));
    } else { assert s[..k] == s; }
  }

  lemma {:induction false} NumberPositive(s: seq<int>, base: nat)
    requires Radix(base) && Below(s, base) && s != [] && s[0] != 0
    ensures Number(s, base) > 0
  {
    NumberMono(s, 1, base);
    assert s[..1][..0] == [];
  }

  /** A digit string with a nonzero head is the digit string of its number. */
  lemma {:induction false} DigitsUnique(s: seq<int>)
    requires Below(s, 58) && (s != [] ==> s[0] != 0)
    ensures Digits(Number(s, 58)) == s
  {
    if s != [] {
      DigitsUnique(s[..|s| - 1]);
      NumberPositive(s, 58);
      var q, n := Number(s[..|s| - 1], 58), Number(s, 58);
      assert n / 58 == q && n % 58 == s[|s| - 1];
      assert Digits(n) == Digits(n / 58) + [n % 58];
    }
  }

  lemma {:induction false} LeadingZerosDrop(s: seq<int>, k: nat, base: nat)
    requires Radix(base) && Below(s, base) && k <= |s| && forall i :: 0 <= i < k ==> s[i] == 0
    ensures Number(s[k..], base) == Number(s, base)
  {
    if k < |s| {
      LeadingZerosDrop(s[..|s| - 1], k, base);
      assert s[k..][..|s| - k - 1] == s[..|s| - 1][k..];
    } else if k > 0 {
      LeadingZerosDrop(s[..|s| - 1], k - 1, base);
      assert s[..|s| - 1][k - 1..] == [];
    }
  }

  /** Byte strings of the same length with the same number are the same. */
  lemma {:induction false} NumberInjective(a: seq<int>, b: seq<int>)
    requires Below(a, 256) && Below(b, 256) && |a| == |b| && Number(a, 256) == Number(b, 256)
    ensures a == b
  {
    if a != [] {
      var n := |a| - 1;
      NumberInjective(a[..n], b[..n]);
      assert a == a[..n] + [a[n]] && b == b[..n] + [b[n]];
    }
  }

  // ---------- 32 bytes need at most 44 characters ----------

  lemma Square(a: nat, b: nat)
    requires a >= b
    ensures a * a >= b * b
  {
    MulMono(b, a, a);
    MulMono(b, a, b);
  }

  lemma Pow44()
    ensures Pow(58, 44) >= Pow(256, 32)
  {
    assert Pow(58, 1) == 58 && Pow(256, 1) == 256 && Pow(58, 2) == 3364;
    PowAdd(58, 1, 2); PowAdd(58, 3, 2); PowAdd(58, 5, 5); PowAdd(58, 1, 10);
    PowAdd(256, 1, 1); PowAdd(256, 2, 2); PowAdd(256, 4, 4);
    assert Pow(58, 5) == 656356768;
    assert Pow(58, 11) >= Pow(256, 8);
    PowAdd(58, 11, 11); PowAdd(256, 8, 8);
    Square(Pow(58, 11), Pow(256, 8));
    PowAdd(58, 22, 22); PowAdd(256, 16, 16);
    Square(Pow(58, 22), Pow(256, 16));
  }

  lemma {:induction false} PowGap(z: nat)
    requires z <= 32
    ensures Pow(58, 44 - z) >= Pow(256, 32 - z)
  {
    if z == 0 { Pow44(); } else {
      PowGap(z - 1);
      assert 58 * Pow(58, 44 - z) >= 256 * Pow(256, 32 - z);
    }
  }

  lemma {:induction false} DigitsLength(n: nat, k: nat)
    requires n < Pow(58, k)
    ensures |Digits(n)| <= k
  {
    if n > 0 {
      assert n / 58 < Pow(58, k - 1) by {
        assert n < 58 * Pow(58, k - 1);
      }
      DigitsLength(n / 58, k - 1);
    }
  }

  lemma EncodedLength(b: seq<int>)
    requires Below(b, 256) && |b| == 32
    ensures 0 < |Encode(b)| <= 44
  {
    var z, n := Zeros(b), Number(b, 256);
    assert n < Pow(58, 44 - z) by {
      LeadingZerosDrop(b, z, 256);
      NumberBound(b[z..]);
      PowGap(z);
    }
    DigitsLength(n, 44 - z);
    if z == 0 {
      NumberPositive(b, 256);
      DigitsNumber(n);
    }
  }

  // ---------- the encoder's loops ----------

  lemma CharsPrepend(d: nat, s: seq<int>)
    requires d < 58 && Below(s, 58)
    ensures Below([d] + s, 58) && Chars([d] + s) == [Letter(d)] + Chars(s)
  {
  }

  lemma DigitsStep(total: nat, n: nat, ds: seq<int>)
    requires n > 0 && Digits(n) + ds == Digits(total)
    ensures Digits(n / 58) + ([n % 58] + ds) == Digits(total)
  {
    assert Digits(n / 58) + ([n % 58] + ds) == (Digits(n / 58) + [n % 58]) + ds;
  }

  lemma ZerosStep(k: nat, ds: seq<int>)
    ensures [0] + (ZeroDigits(k) + ds) == ZeroDigits(k + 1) + ds
  {
  }

  method SignatureBase58(bytes: seq<int>) returns (result: Text)
    requires Below(bytes, 256)
    ensures result == Encode(bytes)
  {
    ghost var total := Number(bytes, 256);
    var n: nat := Number(bytes, 256);
    result := [];
    ghost var ds: seq<int> := [];
    assert Digits(n) + [] == Digits(n);
    while n > 0
      invariant n >= 0 && Digits(n) + ds == Digits(total)
      invariant Below(ds, 58) && result == Chars(ds)
    {
      DigitsStep(total, n, ds);
      CharsPrepend(n % 58, ds);
      ds := [n % 58] + ds;
      result := [Letter(n % 58)] + result;
      n := n / 58;
    }
    assert ds == Digits(total);
    assert ZeroDigits(0) + ds == ds;
    var i := 0;
    ghost var all := ds;
    while i < |bytes| && bytes[i] == 0
      invariant i <= |bytes| && (forall k :: 0 <= k < i ==> bytes[k] == 0)
      invariant all == ZeroDigits(i) + ds && Below(all, 58) && result == Chars(all)
    {
      ZerosStep(i, ds);
      CharsPrepend(0, all);
      all := [0] + all;
      result := [Letter(0)] + result;
      i := i + 1;
    }
    ZerosIs(bytes, i);
  }

  // ---------- the decoder's loops ----------

  function Index(c: int, from: nat): (d: int)
    requires from <= 58
    ensures -1 <= d < 58 && (d >= 0 ==> from <= d && Letter(d) == c)
    ensures d < 0 ==> forall k :: from <= k < 58 ==> Letter(k) != c
    decreases 58 - from
  {
    if from == 58 then -1 else if Letter(from) == c then from else Index(c, from + 1)
  }

  function Digit(c: int): int { Index(c, 0) }

  lemma DigitOf(d: nat)
    requires d < 58
    ensures Digit(Letter(d)) == d
  {
    var e := Digit(Letter(d));
    assert e >= 0 && Letter(e) == Letter(d);
  }

  function Values(text: Text): (s: seq<int>)
    ensures |s| == |text|
  {
    seq(|text|, i requires 0 <= i < |text| => Digit(text[i]))
  }

  /** The bytes from j on, most significant first, as a number. */
  function Tail(v: seq<int>, j: nat): int
    requires j <= |v|
    decreases |v| - j
  {
    if j == |v| then 0 else v[j] * Pow(256, |v| - j - 1) + Tail(v, j + 1)
  }

  lemma {:induction false} TailIsNumber(v: seq<int>, k: nat)
    requires Below(v, 256) && k <= |v|
    ensures Tail(v, k) + Number(v[..k], 256) * Pow(256, |v| - k) == Number(v, 256)
    decreases |v| - k
  {
    if k < |v| {
      TailIsNumber(v, k + 1);
      assert v[..k + 1][..k] == v[..k];
      var n, p := Number(v[..k], 256), Pow(256, |v| - k - 1);
      assert (n * 256 + v[k]) * p == n * (256 * p) + v[k] * p;
    } else { assert v[..k] == v; }
  }

  lemma {:induction false} TailSame(v: seq<int>, w: seq<int>, j: nat)
    requires |v| == |w| && j <= |v| && forall k :: j <= k < |v| ==> v[k] == w[k]
    ensures Tail(v, j) == Tail(w, j)
    decreases |v| - j
  {
    if j < |v| { TailSame(v, w, j + 1); }
  }

  lemma CarryStep(p: nat, carry: nat, digit: int, old58: int, tail: int, d: nat, total: int)
    requires tail + carry * p == 58 * old58 + d && total == carry + 58 * digit && digit >= 0
    ensures (total % 256) * p + tail + (total / 256) * (256 * p) == 58 * (digit * p + old58) + d
  {
    assert total == total % 256 + 256 * (total / 256);
    assert total * p == (total % 256) * p + (256 * (total / 256)) * p;
    assert (256 * (total / 256)) * p == (total / 256) * (256 * p);
    assert total * p == carry * p + (58 * digit) * p;
    assert (58 * digit) * p == 58 * (digit * p);
  }

  /** Position j of the multiply-add: the new byte and carry extend the equation by one place. */
  lemma TailStep(before: seq<int>, was: seq<int>, j: nat, carry: nat, d: nat, total: nat)
    requires |before| == |was| == 32 && j < 32 && before[j] >= 0 && total == carry + 58 * before[j]
    requires Tail(was, j + 1) + carry * Pow(256, 31 - j) == 58 * Tail(before, j + 1) + d
    ensures Tail(was[j := total % 256], j) + (total / 256) * Pow(256, 32 - j) == 58 * Tail(before, j) + d
  {
    var now := was[j := total % 256];
    TailSame(was, now, j + 1);
    CarryStep(Pow(256, 31 - j), carry, before[j], Tail(before, j + 1), Tail(was, j + 1), d, total);
    assert Pow(256, 32 - j) == 256 * Pow(256, 31 - j);
    assert Tail(now, j) == (total % 256) * Pow(256, 31 - j) + Tail(now, j + 1);
    assert Tail(before, j) == before[j] * Pow(256, 31 - j) + Tail(before, j + 1);
  }

  lemma TailWhole(v: seq<int>)
    requires Below(v, 256)
    ensures Tail(v, 0) == Number(v, 256)
  {
    TailIsNumber(v, 0);
    assert v[..0] == [];
  }

  /** One character: value := value * 58 + d over the byte array, with the final carry. */
  method MultiplyAdd(value: array<int>, d: nat) returns (carry: nat)
    requires value.Length == 32 && Below(value[..], 256) && d < 58
    modifies value
    ensures Below(value[..], 256)
    ensures Number(value[..], 256) + carry * Pow(256, value.Length) == 58 * Number(old(value[..]), 256) + d
  {
    ghost var before := value[..];
    carry := d;
    var j := 32;
    while j > 0
      invariant 0 <= j <= 32 && carry < 58
      invariant forall k :: 0 <= k < 32 ==> 0 <= value[k] < 256
      invariant forall k :: 0 <= k < j ==> value[k] == before[k]
      invariant Tail(value[..], j) + carry * Pow(256, 32 - j) == 58 * Tail(before, j) + d
    {
      j := j - 1;
      ghost var was := value[..];
      var total := carry + value[j] * 58;
      TailStep(before, was, j, carry, d, total);
      value[j] := total % 256;
      carry := total / 256;
      assert value[..] == was[j := total % 256];
    }
    TailWhole(value[..]);
    TailWhole(before);
  }

  ghost predicate Encodes(b: seq<int>, text: Text) {
    |b| == 32 && Below(b, 256) && Encode(b) == text
  }

  ghost predicate HasBadCharacter(text: Text) {
    exists i :: 0 <= i < |text| && Digit(text[i]) < 0
  }

  lemma BadCharacter(text: Text, i: nat)
    requires i < |text| && Digit(text[i]) < 0
    ensures HasBadCharacter(text)
    ensures forall b :: !Encodes(b, text)
  {
    assert Values(text)[i] == Digit(text[i]);
    forall b | Encodes(b, text) ensures false { EncodedDigits(b, text); }
  }

  /** A prefix that overflows rules out every 32-byte value. */
  lemma Overflow(text: Text, i: nat, width: nat)
    requires i <= |text| && width == 32
    requires Below(Values(text)[..i], 58) && Number(Values(text)[..i], 58) >= Pow(256, width)
    ensures forall b :: !Encodes(b, text)
  {
    forall b | Encodes(b, text) ensures false {
      EncodedDigits(b, text);
      NumberMono(Values(text), i, 58);
      NumberBound(b);
    }
  }

  lemma OnlyCandidate(v: seq<int>, text: Text)
    requires |v| == 32 && Below(v, 256) && Below(Values(text), 58)
    requires Number(v, 256) == Number(Values(text), 58)
    ensures Zeros(v) == Zeros(Values(text)) ==> Encodes(v, text)
    ensures forall b :: Encodes(b, text) ==> b == v && Zeros(v) == Zeros(Values(text))
  {
    if Zeros(v) == Zeros(Values(text)) { DecodedText(v, text); }
    forall b | Encodes(b, text) ensures b == v && Zeros(v) == Zeros(Values(text)) {
      EncodedDigits(b, text);
      NumberInjective(b, v);
    }
  }

  /** The character loop: value becomes the number the text writes, zeros its leading '1's. */
  method ReadDigits(text: Text, value: array<int>) returns (zeros: nat, error: Decoded)
    requires value.Length == 32 && forall k :: 0 <= k < 32 ==> value[k] == 0
    modifies value
    ensures Below(value[..], 256)
    ensures error.Ok? ==> Below(Values(text), 58) && zeros == Zeros(Values(text))
    ensures error.Ok? ==> Number(value[..], 256) == Number(Values(text), 58)
    ensures !error.Ok? ==> forall b :: !Encodes(b, text)
    ensures error == InvalidArg ==> HasBadCharacter(text)
  {
    var leading := true;
    zeros := 0;
    var i := 0;
    ScanStart(text, value[..]);
    while i < |text|
      invariant Scanned(text, value[..], i, leading, zeros)
    {
      var d := Digit(text[i]);
      if d < 0 {
        BadCharacter(text, i);
        return zeros, InvalidArg;
      }
      if leading && d == 0 {
        ScanZero(text, value[..], i, zeros);
        zeros := zeros + 1;
      } else {
        ghost var before := value[..];
        var carry := MultiplyAdd(value, d);
        ScanNext(text, before, value[..], i, carry, leading, zeros);
        leading := false;
        if carry != 0 { return zeros, InvalidSize; }
      }
      i := i + 1;
    }
    ScanEnd(text, value[..], leading, zeros);
    error := Ok([]);
  }

  /** The first i characters are read: value is their number, zeros their leading '1's. */
  ghost predicate Scanned(text: Text, v: seq<int>, i: nat, leading: bool, zeros: nat) {
    var ds := Values(text);
    && i <= |ds|
    && Below(ds[..i], 58) && Below(v, 256) && Number(v, 256) == Number(ds[..i], 58)
    && zeros <= i && (forall k :: 0 <= k < zeros ==> ds[k] == 0)
    && (if leading then zeros == i else zeros < i && ds[zeros] != 0)
  }

  lemma ScanStart(text: Text, v: seq<int>)
    requires forall k :: 0 <= k < |v| ==> v[k] == 0
    ensures Scanned(text, v, 0, true, 0)
  {
    ZeroNumber(v);
    assert Values(text)[..0] == [];
  }

  lemma ScanZero(text: Text, v: seq<int>, i: nat, zeros: nat)
    requires Scanned(text, v, i, true, zeros) && i < |text| && Digit(text[i]) == 0
    ensures Scanned(text, v, i + 1, true, zeros + 1)
  {
    ZeroNumber(Values(text)[..i]);
    ZeroNumber(Values(text)[..i + 1]);
  }

  lemma PrefixNumber(ds: seq<int>, i: nat, n: nat)
    requires i < |ds| && Below(ds[..i], 58) && 0 <= ds[i] < 58 && Number(ds[..i], 58) == n
    ensures Below(ds[..i + 1], 58) && Number(ds[..i + 1], 58) == 58 * n + ds[i]
  {
    assert ds[..i + 1] == ds[..i] + [ds[i]];
    NumberAppend(ds[..i], ds[i], 58);
  }

  lemma ScanNext(text: Text, v: seq<int>, v': seq<int>, i: nat, carry: nat, leading: bool, zeros: nat)
    requires Scanned(text, v, i, leading, zeros) && i < |text| && Below(v', 256) && |v'| == 32
    requires Digit(text[i]) >= 0 && (leading ==> Digit(text[i]) > 0)
    requires Number(v', 256) + carry * Pow(256, |v'|) == 58 * Number(v, 256) + Digit(text[i])
    ensures carry == 0 ==> Scanned(text, v', i + 1, false, zeros)
    ensures carry != 0 ==> forall b :: !Encodes(b, text)
  {
    PrefixNumber(Values(text), i, Number(v, 256));
    if carry != 0 { CarryOverflows(text, v', i + 1, carry); }
  }

  lemma CarryOverflows(text: Text, v: seq<int>, i: nat, carry: nat)
    requires carry > 0 && |v| == 32 && i <= |text| && Below(v, 256) && Below(Values(text)[..i], 58)
    requires Number(Values(text)[..i], 58) == Number(v, 256) + carry * Pow(256, |v|)
    ensures forall b :: !Encodes(b, text)
  {
    MulMono(1, carry, Pow(256, |v|));
    Overflow(text, i, |v|);
  }

  lemma ScanEnd(text: Text, v: seq<int>, leading: bool, zeros: nat)
    requires Scanned(text, v, |text|, leading, zeros)
    ensures Below(Values(text), 58) && Number(v, 256) == Number(Values(text), 58)
    ensures zeros == Zeros(Values(text))
  {
    assert Values(text)[..|text|] == Values(text);
    ZerosIs(Values(text), zeros);
  }

  /** Succeeds with out exactly when the text is the encoding of those 32 bytes. */
  method Decode32(text: Text) returns (r: Decoded)
    ensures r.Ok? ==> Encodes(r.out, text)
    ensures forall b :: Encodes(b, text) ==> r == Ok(b)
    ensures r == InvalidArg ==> HasBadCharacter(text)
    ensures text == [] || |text| > 44 ==> r == InvalidSize
  {
    if |text| == 0 || |text| > 44 {
      forall b ensures !Encodes(b, text) {
        if |b| == 32 && Below(b, 256) { EncodedLength(b); }
      }
      return InvalidSize;
    }
    var value := new int[32](_ => 0);
    var zeros, error := ReadDigits(text, value);
    if !error.Ok? { return error; }
    var unused := 0;
    while unused < 32 && value[unused] == 0
      invariant unused <= 32 && forall k :: 0 <= k < unused ==> value[k] == 0
    {
      unused := unused + 1;
    }
    ZerosIs(value[..], unused);
    OnlyCandidate(value[..], text);
    if zeros + (32 - unused) != 32 { return InvalidSize; }
    return Ok(value[..]);
  }

  lemma {:induction false} ZeroNumber(s: seq<int>)
    requires forall i :: 0 <= i < |s| ==> s[i] == 0
    ensures Below(s, 58) && Below(s, 256) && Number(s, 58) == 0 == Number(s, 256)
  {
    if s != [] { ZeroNumber(s[..|s| - 1]); }
  }

  lemma {:induction false} ZerosIs(s: seq<int>, k: nat)
    requires k <= |s| && (forall i :: 0 <= i < k ==> s[i] == 0) && (k < |s| ==> s[k] != 0)
    ensures Zeros(s) == k
  {
  }

  lemma ValuesOfChars(ds: seq<int>)
    requires Below(ds, 58)
    ensures Values(Chars(ds)) == ds
  {
    forall i | 0 <= i < |ds| ensures Values(Chars(ds))[i] == ds[i] {
      DigitOf(ds[i]);
    }
  }

  lemma CharsOfValues(text: Text)
    requires Below(Values(text), 58)
    ensures Chars(Values(text)) == text
  {
    forall i | 0 <= i < |text| ensures Chars(Values(text))[i] == text[i] {
      assert Values(text)[i] == Digit(text[i]);
    }
  }

  /** The digit values of an encoding: its number, and as many leading zeros as the bytes have. */
  lemma EncodedDigits(b: seq<int>, text: Text)
    requires Below(b, 256) && Encode(b) == text
    ensures Below(Values(text), 58) && Number(Values(text), 58) == Number(b, 256)
    ensures Zeros(Values(text)) == Zeros(b)
  {
    var n, z, ds := Number(b, 256), Zeros(b), EncodedValues(b);
    ValuesOfChars(ds);
    assert ds[z..] == Digits(n);
    LeadingZerosDrop(ds, z, 58);
    DigitsNumber(n);
    ZerosIs(ds, z);
  }

  /** A text whose digits write the bytes' number with the right leading ones is their encoding. */
  lemma DecodedText(b: seq<int>, text: Text)
    requires Below(b, 256) && Below(Values(text), 58)
    requires Number(Values(text), 58) == Number(b, 256) && Zeros(Values(text)) == Zeros(b)
    ensures Encode(b) == text
  {
    var s, z := Values(text), Zeros(b);
    LeadingZerosDrop(s, z, 58);
    DigitsUnique(s[z..]);
    assert s == ZeroDigits(z) + s[z..];
    CharsOfValues(text);
  }
}
