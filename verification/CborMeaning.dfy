/** What the CBOR codec's tables mean: the initial bytes of RFC 8949, UTF-8 as the encoding of scalar
    values, and which values are handed out. */
module CborMeaning {
  import opened Wrappers
  import opened ByteCodec
  import opened Cbor

  // ---------- initial bytes ----------

  /** Major types 0 to 5 in the three high bits. */
  function Base(v: Value): nat {
    match v
    case Int(n) => if n < 0 then 0x20 else 0x00
    case Bin(_) => 0x40
    case Text(_) => 0x60
    case Arr(_) => 0x80
    case Map(_) => 0xA0
    case _ => 0xE0
  }

  /** The value, its distance below -1, or its length: in bytes, items or pairs. */
  function Count(v: Value): nat {
    match v
    case Int(n) => if n < 0 then -n - 1 else n
    case Bin(s) => |s|
    case Text(s) => |s|
    case Arr(vs) => |vs|
    case Map(es) => |es| / 2
    case _ => 0
  }

  /** Byte i of n, counted from the low end. */
  function ByteOf(n: nat, i: nat): Byte { n / Pow256(i) % 256 }

  /** Section 3 of RFC 8949: the count in the initial byte, or in the next 1, 2, 4 or 8 bytes. */
  function Initial(base: nat, n: nat): (s: Bytes)
    requires base <= 0xE0 && base % 0x20 == 0
  {
    if n <= 23 then [base + n]
    else if n <= 0xFF then [base + 24, n]
    else if n <= 0xFFFF then [base + 25, ByteOf(n, 1), ByteOf(n, 0)]
    else if n <= 0xFFFF_FFFF then [base + 26, ByteOf(n, 3), ByteOf(n, 2), ByteOf(n, 1), ByteOf(n, 0)]
    else [base + 27, ByteOf(n, 7), ByteOf(n, 6), ByteOf(n, 5), ByteOf(n, 4),
                     ByteOf(n, 3), ByteOf(n, 2), ByteOf(n, 1), ByteOf(n, 0)]
  }

  lemma {:induction false} ToBigDigit(n: nat, k: nat, i: nat)
    requires i < k
    ensures ToBig(n, k)[k - 1 - i] == ByteOf(n, i)
  {
    if i > 0 {
      ToBigDigit(n / 256, k - 1, i - 1);
      Nested(n, Pow256(i - 1));
    }
  }

  lemma InitialWide(major: nat, n: nat)
    requires major < 7 && 0xFFFF_FFFF < n <= MAX_SAFE
    ensures Head(major, n) == Initial(major * 32, n)
  {
    ToBigDigit(n, 8, 0); ToBigDigit(n, 8, 1); ToBigDigit(n, 8, 2); ToBigDigit(n, 8, 3);
    ToBigDigit(n, 8, 4); ToBigDigit(n, 8, 5); ToBigDigit(n, 8, 6); ToBigDigit(n, 8, 7);
  }

  lemma HeadIsInitial(major: nat, n: nat)
    requires major < 7 && n <= MAX_SAFE
    ensures Head(major, n) == Initial(major * 32, n)
  {
    if n > 0xFFFF_FFFF {
      InitialWide(major, n);
    } else if n > 0xFFFF {
      ToBigDigit(n, 4, 0); ToBigDigit(n, 4, 1); ToBigDigit(n, 4, 2); ToBigDigit(n, 4, 3);
    } else if n > 0xFF {
      ToBigDigit(n, 2, 0); ToBigDigit(n, 2, 1);
    } else if n > 23 {
      ToBigDigit(n, 1, 0);
    }
  }

  /** An accepted value begins with its initial bytes; its contents follow in order. */
  lemma EncodingIsPreferred(v: Value, depth: nat)
    requires Supported(v, depth)
    ensures Encode(v) ==
      match v
      case Null => [0xF6]
      case Bool(b) => [if b then 0xF5 else 0xF4]
      case Int(n) => Initial(Base(v), Count(v))
      case Bin(s) => Initial(Base(v), Count(v)) + s
      case Text(s) => Initial(Base(v), Count(v)) + s
      case Arr(vs) => Initial(Base(v), Count(v)) + EncodeAll(vs)
      case Map(es) => Initial(Base(v), Count(v)) + EncodeAll(es)
  {
    if !Simple(v) { HeadIsInitial(Major(v), Arg(v)); }
  }

  // ---------- UTF-8 ----------

  /** A code point that is no surrogate. */
  predicate Scalar(c: nat) { c < 0xD800 || 0xE000 <= c <= 0x10FFFF }

  /** Section 3 of RFC 3629. */
  function Utf8One(c: nat): (s: Bytes)
    requires Scalar(c)
    ensures s != []
  {
    if c < 0x80 then [c]
    else if c < 0x800 then [0xC0 + c / 64, 0x80 + c % 64]
    else if c < 0x1_0000 then [0xE0 + c / 4096, 0x80 + c / 64 % 64, 0x80 + c % 64]
    else [0xF0 + c / 262144, 0x80 + c / 4096 % 64, 0x80 + c / 64 % 64, 0x80 + c % 64]
  }

  function Utf8(cs: seq<nat>): Bytes
    requires forall i :: 0 <= i < |cs| ==> Scalar(cs[i])
  {
    if cs == [] then [] else Utf8One(cs[0]) + Utf8(cs[1..])
  }

  lemma OneTwoBytes(c: nat, rest: Bytes)
    requires c < 0x800
    ensures ValidUtf8(Utf8One(c) + rest) <==> ValidUtf8(rest)
  {
    var one, s := Utf8One(c), Utf8One(c) + rest;
    assert s[|one|..] == rest && s[0] == one[0];
    if c >= 0x80 { assert s[1..][0] == one[1]; }
  }

  lemma ThreeBytes(c: nat, rest: Bytes)
    requires Scalar(c) && 0x800 <= c < 0x1_0000
    ensures ValidUtf8(Utf8One(c) + rest) <==> ValidUtf8(rest)
  {
    var one, s := Utf8One(c), Utf8One(c) + rest;
    assert s[3..] == rest && s[0] == one[0] && s[1] == one[1];
    assert s[1..][0] == one[1] && s[1..][1] == one[2];
  }

  lemma FourBytes(c: nat, rest: Bytes)
    requires Scalar(c) && 0x1_0000 <= c
    ensures ValidUtf8(Utf8One(c) + rest) <==> ValidUtf8(rest)
  {
    var one, s := Utf8One(c), Utf8One(c) + rest;
    assert s[4..] == rest && s[0] == one[0] && s[1] == one[1];
    assert s[1..][0] == one[1] && s[1..][1] == one[2] && s[1..][2] == one[3];
  }

  lemma OneIsValid(c: nat, rest: Bytes)
    requires Scalar(c)
    ensures ValidUtf8(Utf8One(c) + rest) <==> ValidUtf8(rest)
  {
    if c < 0x800 { OneTwoBytes(c, rest); } else if c < 0x1_0000 { ThreeBytes(c, rest); } else { FourBytes(c, rest); }
  }

  lemma {:induction false} Utf8IsValid(cs: seq<nat>)
    requires forall i :: 0 <= i < |cs| ==> Scalar(cs[i])
    ensures ValidUtf8(Utf8(cs))
  {
    if cs != [] {
      Utf8IsValid(cs[1..]);
      OneIsValid(cs[0], Utf8(cs[1..]));
    }
  }

  lemma FirstTwo(s: Bytes) returns (c: nat)
    requires ValidUtf8(s) && s != [] && 0x80 <= s[0] <= 0xDF
    ensures Scalar(c) && |s| >= 2 && Utf8One(c) == s[..2] && ValidUtf8(s[2..])
  {
    var a: int, b: int := s[0], s[1..][0];
    c := (a - 0xC0) * 64 + (b - 0x80);
  }

  lemma FirstThree(s: Bytes) returns (c: nat)
    requires ValidUtf8(s) && s != [] && 0xE0 <= s[0] <= 0xEF
    ensures Scalar(c) && |s| >= 3 && Utf8One(c) == s[..3] && ValidUtf8(s[3..])
  {
    assert s[1..][0] == s[1] && s[1..][1] == s[2];
    var a: int, b: int, d: int := s[0], s[1], s[2];
    c := (a - 0xE0) * 4096 + (b - 0x80) * 64 + (d - 0x80);
    assert c / 64 == (a - 0xE0) * 64 + (b - 0x80);
  }

  lemma FirstFour(s: Bytes) returns (c: nat)
    requires ValidUtf8(s) && s != [] && 0xF0 <= s[0]
    ensures Scalar(c) && |s| >= 4 && Utf8One(c) == s[..4] && ValidUtf8(s[4..])
  {
    assert s[1..][0] == s[1] && s[1..][1] == s[2] && s[1..][2] == s[3];
    var a: int, b: int, d: int, e: int := s[0], s[1], s[2], s[3];
    c := (a - 0xF0) * 262144 + (b - 0x80) * 4096 + (d - 0x80) * 64 + (e - 0x80);
    assert c / 64 == (a - 0xF0) * 4096 + (b - 0x80) * 64 + (d - 0x80);
    assert c / 4096 == (a - 0xF0) * 64 + (b - 0x80);
  }

  lemma First(s: Bytes) returns (c: nat, k: nat)
    requires ValidUtf8(s) && s != []
    ensures Scalar(c) && 0 < k <= |s| && Utf8One(c) == s[..k] && ValidUtf8(s[k..])
  {
    if s[0] < 0x80 {
      c, k := s[0], 1;
    } else if s[0] <= 0xDF {
      c := FirstTwo(s);
      k := 2;
    } else if s[0] <= 0xEF {
      c := FirstThree(s);
      k := 3;
    } else {
      c := FirstFour(s);
      k := 4;
    }
  }

  lemma {:induction false} ValidIsUtf8(s: Bytes) returns (cs: seq<nat>)
    requires ValidUtf8(s)
    ensures (forall i :: 0 <= i < |cs| ==> Scalar(cs[i])) && Utf8(cs) == s
  {
    cs := [];
    if s != [] {
      var c, k := First(s);
      var rest := ValidIsUtf8(s[k..]);
      cs := [c] + rest;
      assert s == s[..k] + s[k..];
    }
  }

  ghost predicate Writes(cs: seq<nat>, s: Bytes) {
    (forall i :: 0 <= i < |cs| ==> Scalar(cs[i])) && Utf8(cs) == s
  }

  /** A text is taken if and only if its bytes are the UTF-8 of some scalar values. */
  lemma TextIsUtf8(s: Bytes)
    ensures ValidUtf8(s) <==> exists cs :: Writes(cs, s)
  {
    if ValidUtf8(s) {
      var cs := ValidIsUtf8(s);
      assert Writes(cs, s);
    }
    forall cs | Writes(cs, s) ensures ValidUtf8(s) { Utf8IsValid(cs); }
  }

  /** The mark that is dropped is U+FEFF, and only the first one. */
  lemma MarkIsFEFF(s: Bytes)
    ensures HasBom(s) <==> exists rest: Bytes :: s == Utf8One(0xFEFF) + rest
    ensures DropBom(Utf8One(0xFEFF) + s) == s
    ensures !HasBom(s) ==> DropBom(s) == s
  {
    assert Utf8One(0xFEFF) == [0xEF, 0xBB, 0xBF];
    if HasBom(s) { assert s == Utf8One(0xFEFF) + s[3..]; }
    assert HasBom(Utf8One(0xFEFF) + s) && (Utf8One(0xFEFF) + s)[3..] == s;
  }

  // ---------- supported values ----------

  function Height(v: Value): nat
    decreases v, 1
  {
    match v
    case Arr(vs) => HeightAll(vs)
    case Map(es) => HeightAll(es)
    case _ => 0
  }

  /** The height of a value with these children. */
  function HeightAll(vs: seq<Value>): nat
    decreases vs, 0
  {
    if vs == [] then 0
    else if 1 + Height(vs[0]) > HeightAll(vs[1..]) then 1 + Height(vs[0]) else HeightAll(vs[1..])
  }

  /** Keys are numbers or texts, and no two read the same. */
  ghost predicate GoodKeys(es: seq<Value>) {
    && |es| % 2 == 0
    && (forall i: nat :: 2 * i < |es| ==> es[2 * i].Int? || es[2 * i].Text?)
    && (forall i: nat, j: nat :: 2 * i < |es| && 2 * j < |es| && SameKey(es[2 * i], es[2 * j]) ==> i == j)
  }

  predicate SameKey(a: Value, b: Value) {
    a == b || (a.Text? && b.Text? && DropBom(a.utf8) == DropBom(b.utf8))
  }

  /** The safe integers of the source's language, shifted by one below zero. */
  ghost predicate Legal(v: Value)
    decreases v, 1
  {
    match v
    case Int(n) => -9_007_199_254_740_992 <= n <= 9_007_199_254_740_991
    case Bin(s) => |s| <= 9_007_199_254_740_991
    case Text(s) => |s| <= 9_007_199_254_740_991 && exists cs :: Writes(cs, s)
    case Arr(vs) => |vs| <= 9_007_199_254_740_991 && AllLegal(vs)
    case Map(es) => |es| / 2 <= 9_007_199_254_740_991 && GoodKeys(es) && AllLegal(es)
    case _ => true
  }

  ghost predicate AllLegal(vs: seq<Value>)
    decreases vs, 0
  {
    vs == [] || (Legal(vs[0]) && AllLegal(vs[1..]))
  }

  lemma KeysAreGood(es: seq<Value>)
    ensures |es| % 2 == 0 && KeysOk(es) <==> GoodKeys(es)
  {
    if |es| % 2 == 0 && KeysOk(es) {
      forall i: nat, j: nat | 2 * i < |es| && 2 * j < |es| && i != j ensures !SameKey(es[2 * i], es[2 * j]) {
        assert Strip(es[2 * i]) != Strip(es[2 * j]);
      }
    }
    if GoodKeys(es) {
      forall i | 0 <= i < |es| && i % 2 == 0 ensures IsKey(es[i]) { assert es[i] == es[2 * (i / 2)]; }
      forall i, j | 0 <= i < j < |es| && i % 2 == 0 && j % 2 == 0 ensures Strip(es[i]) != Strip(es[j]) {
        assert es[i] == es[2 * (i / 2)] && es[j] == es[2 * (j / 2)];
      }
    }
  }

  /** The values the decoder meets are the legal ones of at most twelve levels. */
  lemma {:induction false} SupportedMeans(v: Value, depth: nat)
    ensures Supported(v, depth) <==> depth + Height(v) <= 12 && Legal(v)
    decreases v, 1
  {
    match v
    case Text(s) => TextIsUtf8(s);
    case Arr(vs) => if depth <= 12 { AllSupportedMeans(vs, depth); }
    case Map(es) =>
      if depth <= 12 { AllSupportedMeans(es, depth); }
      KeysAreGood(es);
    case _ =>
  }

  lemma {:induction false} AllSupportedMeans(vs: seq<Value>, depth: nat)
    requires depth <= 12
    ensures AllSupported(vs, depth + 1) <==> depth + HeightAll(vs) <= 12 && AllLegal(vs)
    decreases vs, 0
  {
    if vs != [] {
      SupportedMeans(vs[0], depth + 1);
      AllSupportedMeans(vs[1..], depth);
    }
  }

  /** Every legal value of at most twelve levels, and no other, is handed out for its encoding, if that
      has at most 1 MiB; marks apart. */
  lemma AcceptedIsLegal(input: Bytes) returns (raw: Value)
    requires DecodeWhole(input).Some?
    ensures |input| <= 1_048_576 && Height(raw) <= 12 && Legal(raw)
    ensures input == Encode(raw) && DecodeWhole(input) == Some(Strip(raw))
  {
    raw := WholeIsEncoded(input);
    SupportedMeans(raw, 0);
  }

  lemma LegalIsAccepted(v: Value)
    requires Height(v) <= 12 && Legal(v)
    ensures DecodeWhole(Encode(v)) == if |Encode(v)| <= 1_048_576 then Some(Strip(v)) else None
  {
    SupportedMeans(v, 0);
    if |Encode(v)| <= 1_048_576 { DecodeInvertsEncode(v); }
  }
}
