/** The strict CBOR decoder of App Attest objects against preferred serialization (section 4.1 of
    RFC 8949) with definite lengths and map order kept. */
module Cbor {
  import opened Wrappers
  import opened ByteCodec

  const MAX_SAFE: nat := 0x1f_ffff_ffff_ffff
  const MAX_DEPTH: nat := 12
  const MAX_INPUT: nat := 1_048_576

  /** Text carries its UTF-8 bytes. A map lists its keys and values in turn, in insertion order. */
  datatype Value =
    | Int(n: int)
    | Bin(bytes: Bytes)
    | Text(utf8: Bytes)
    | Arr(items: seq<Value>)
    | Map(entries: seq<Value>)
    | Bool(b: bool)
    | Null

  // ---------- text ----------

  predicate Tails(s: Bytes, n: nat) {
    |s| >= n && forall i :: 0 <= i < n ==> 0x80 <= s[i] <= 0xBF
  }

  /** Well-formed UTF-8: no overlong forms, surrogates or code points past U+10FFFF. */
  predicate ValidUtf8(s: Bytes) {
    if s == [] then true
    else if s[0] < 0x80 then ValidUtf8(s[1..])
    else if 0xC2 <= s[0] <= 0xDF then Tails(s[1..], 1) && ValidUtf8(s[2..])
    else if 0xE0 <= s[0] <= 0xEF then
      Tails(s[1..], 2) && (s[0] == 0xE0 ==> s[1] >= 0xA0) && (s[0] == 0xED ==> s[1] <= 0x9F) && ValidUtf8(s[3..])
    else if 0xF0 <= s[0] <= 0xF4 then
      Tails(s[1..], 3) && (s[0] == 0xF0 ==> s[1] >= 0x90) && (s[0] == 0xF4 ==> s[1] <= 0x8F) && ValidUtf8(s[4..])
    else false
  }

  predicate HasBom(s: Bytes) { |s| >= 3 && s[0] == 0xEF && s[1] == 0xBB && s[2] == 0xBF }

  /** The text decoder swallows one leading byte order mark. */
  function DropBom(s: Bytes): Bytes { if HasBom(s) then s[3..] else s }

  function Strip(v: Value): Value
    decreases v, 1
  {
    match v
    case Text(s) => Text(DropBom(s))
    case Arr(vs) => Arr(StripAll(vs))
    case Map(es) => Map(StripAll(es))
    case _ => v
  }

  function StripAll(vs: seq<Value>): (r: seq<Value>)
    ensures |r| == |vs|
    decreases vs, 0
  {
    if vs == [] then [] else [Strip(vs[0])] + StripAll(vs[1..])
  }

  // ---------- preferred serialization ----------

  /** The shortest of the four widths, and the code announcing it. */
  function Width(arg: nat): nat {
    if arg < 0x100 then 1 else if arg < 0x1_0000 then 2 else if arg < 0x1_0000_0000 then 4 else 8
  }
  function WidthCode(arg: nat): nat {
    if arg < 0x100 then 24 else if arg < 0x1_0000 then 25 else if arg < 0x1_0000_0000 then 26 else 27
  }

  function Head(major: nat, arg: nat): (s: Bytes)
    requires major < 7 && arg <= MAX_SAFE
    ensures 1 <= |s| <= 9
  {
    if arg < 24 then [major * 32 + arg] else [major * 32 + WidthCode(arg)] + ToBig(arg, Width(arg))
  }

  predicate Simple(v: Value) { v.Bool? || v.Null? }

  /** Initial byte: major type and argument; then the payload. */
  function Major(v: Value): nat {
    match v
    case Int(n) => if n >= 0 then 0 else 1
    case Bin(_) => 2
    case Text(_) => 3
    case Arr(_) => 4
    case Map(_) => 5
    case _ => 7
  }

  function Arg(v: Value): nat {
    match v
    case Int(n) => if n >= 0 then n else -1 - n
    case Bin(s) => |s|
    case Text(s) => |s|
    case Arr(vs) => |vs|
    case Map(es) => |es| / 2
    case Bool(b) => if b then 21 else 20
    case Null => 22
  }

  function Payload(v: Value): Bytes
    decreases v, 1
  {
    match v
    case Bin(s) => s
    case Text(s) => s
    case Arr(vs) => EncodeAll(vs)
    case Map(es) => EncodeAll(es)
    case _ => []
  }

  function Encode(v: Value): Bytes
    decreases v, 2
  {
    if Simple(v) then [224 + Arg(v)]
    else if Arg(v) > MAX_SAFE then []
    else Head(Major(v), Arg(v)) + Payload(v)
  }

  function EncodeAll(vs: seq<Value>): Bytes
    decreases vs, 0
  {
    if vs == [] then [] else Encode(vs[0]) + EncodeAll(vs[1..])
  }

  predicate IsKey(v: Value) { v.Int? || v.Text? }

  /** Keys sit at even positions and stay distinct after marks are dropped. */
  predicate KeysOk(es: seq<Value>) {
    && (forall i :: 0 <= i < |es| && i % 2 == 0 ==> IsKey(es[i]))
    && (forall i, j :: 0 <= i < j < |es| && i % 2 == 0 && j % 2 == 0 ==> Strip(es[i]) != Strip(es[j]))
  }

  /** A value the decoder can meet at a depth, before byte order marks are dropped. */
  predicate Supported(v: Value, depth: nat)
    decreases v, 1
  {
    depth <= MAX_DEPTH && Arg(v) <= MAX_SAFE &&
    match v
    case Text(s) => ValidUtf8(s)
    case Arr(vs) => AllSupported(vs, depth + 1)
    case Map(es) => |es| % 2 == 0 && KeysOk(es) && AllSupported(es, depth + 1)
    case _ => true
  }

  predicate AllSupported(vs: seq<Value>, depth: nat)
    decreases vs, 0
  {
    if vs == [] then true else Supported(vs[0], depth) && AllSupported(vs[1..], depth)
  }

  // ---------- the decoder as a function of the input ----------

  /** The argument of an initial byte whose low bits are `additional`, read from offset o. */
  function Argument(data: Bytes, o: nat, additional: nat): (r: Option<(nat, nat)>)
    requires o <= |data|
    ensures r.Some? ==> r.value.0 <= MAX_SAFE && o <= r.value.1 <= |data|
  {
    if additional < 24 then Some((additional, o))
    else if additional > 27 then None
    else
      var k := if additional == 24 then 1 else if additional == 25 then 2 else if additional == 26 then 4 else 8;
      if o + k > |data| then None
      else
        var n := Big(data[o..o + k]);
        var least := if k == 1 then 24 else if k == 2 then 0x100 else if k == 4 then 0x1_0000 else 0x1_0000_0000;
        if n < least || n > MAX_SAFE then None else Some((n, o + k))
  }

  function Item(data: Bytes, o: nat, depth: nat): (r: Option<(Value, nat)>)
    requires o <= |data|
    ensures r.Some? ==> o < r.value.1 <= |data|
    decreases |data| - o, 0, 0
  {
    if depth > MAX_DEPTH || o == |data| then None
    else
      var major, additional := data[o] / 32, data[o] % 32;
      if major == 7 then
        if additional == 20 then Some((Bool(false), o + 1))
        else if additional == 21 then Some((Bool(true), o + 1))
        else if additional == 22 then Some((Null, o + 1))
        else None
      else
        var arg := Argument(data, o + 1, additional);
        if arg.None? then None else Body(data, arg.value.1, depth, major, arg.value.0)
  }

  /** What follows the argument. */
  function Body(data: Bytes, p: nat, depth: nat, major: nat, n: nat): (r: Option<(Value, nat)>)
    requires p <= |data|
    ensures r.Some? ==> p <= r.value.1 <= |data|
    decreases |data| - p, 2, 0
  {
    match major
    case 0 => Some((Int(n), p))
    case 1 => Some((Int(-1 - n), p))
    case 2 => if p + n > |data| then None else Some((Bin(data[p..p + n]), p + n))
    case 3 =>
      if p + n > |data| || !ValidUtf8(data[p..p + n]) then None else Some((Text(data[p..p + n]), p + n))
    case 4 =>
      if n > |data| then None
      else
        var r := Items(data, p, depth + 1, n, []);
        if r.None? then None else Some((Arr(r.value.0), r.value.1))
    case 5 =>
      if n > |data| then None
      else
        var r := Pairs(data, p, depth + 1, n, []);
        if r.None? then None else Some((Map(r.value.0), r.value.1))
    case _ => None
  }

  function Items(data: Bytes, o: nat, depth: nat, n: nat, done: seq<Value>): (r: Option<(seq<Value>, nat)>)
    requires o <= |data|
    ensures r.Some? ==> o <= r.value.1 <= |data|
    decreases |data| - o, 1, n
  {
    if n == 0 then Some((done, o))
    else
      var v := Item(data, o, depth);
      if v.None? then None else Items(data, v.value.1, depth, n - 1, done + [v.value.0])
  }

  predicate Seen(done: seq<Value>, key: Value) {
    exists i :: 0 <= i < |done| && i % 2 == 0 && Strip(done[i]) == Strip(key)
  }

  function Pairs(data: Bytes, o: nat, depth: nat, n: nat, done: seq<Value>): (r: Option<(seq<Value>, nat)>)
    requires o <= |data|
    ensures r.Some? ==> o <= r.value.1 <= |data|
    decreases |data| - o, 1, n
  {
    if n == 0 then Some((done, o))
    else
      var k := Item(data, o, depth);
      if k.None? || !IsKey(k.value.0) || Seen(done, k.value.0) then None
      else
        var v := Item(data, k.value.1, depth);
        if v.None? then None
        else Pairs(data, v.value.1, depth, n - 1, done + [k.value.0, v.value.0])
  }

  /** decodeCborPrefix: the value as handed out, with marks dropped, and the bytes consumed. */
  function DecodePrefix(input: Bytes): Option<(Value, nat)> {
    if |input| == 0 || |input| > MAX_INPUT then None
    else match Item(input, 0, 0)
      case None => None
      case Some(r) => Some((Strip(r.0), r.1))
  }

  /** decodeCbor: nothing may be left over. */
  function DecodeWhole(input: Bytes): Option<Value> {
    match DecodePrefix(input)
    case Some(r) => if r.1 == |input| then Some(r.0) else None
    case None => None
  }

  lemma {:induction false} StripAppend(vs: seq<Value>, v: Value)
    ensures StripAll(vs + [v]) == StripAll(vs) + [Strip(v)]
  {
    if vs == [] {
      assert vs + [v] == [v];
      assert StripAll([v]) == [Strip(v)] + StripAll([v][1..]);
    } else {
      StripAppend(vs[1..], v);
      assert (vs + [v])[1..] == vs[1..] + [v];
    }
  }

  lemma {:induction false} StripElements(vs: seq<Value>)
    ensures forall i :: 0 <= i < |vs| ==> StripAll(vs)[i] == Strip(vs[i])
  {
    if vs != [] {
      StripElements(vs[1..]);
    }
  }

  lemma StripPair(vs: seq<Value>, k: Value, v: Value)
    ensures StripAll(vs + [k, v]) == StripAll(vs) + [Strip(k)] + [Strip(v)]
  {
    StripAppend(vs, k);
    StripAppend(vs + [k], v);
    assert vs + [k, v] == vs + [k] + [v];
  }

  /** The key is there, both with marks dropped. */
  predicate HasKey(entries: seq<Value>, key: Value) {
    exists j :: 0 <= j < |entries| && j % 2 == 0 && entries[j] == key
  }

  lemma SeenStripped(done: seq<Value>, key: Value)
    ensures Seen(done, key) <==> HasKey(StripAll(done), Strip(key))
  {
    StripElements(done);
    var entries, k := StripAll(done), Strip(key);
    if Seen(done, key) {
      var i :| 0 <= i < |done| && i % 2 == 0 && Strip(done[i]) == k;
      assert entries[i] == k;
    }
    if HasKey(entries, k) {
      var j :| 0 <= j < |entries| && j % 2 == 0 && entries[j] == k;
      assert Strip(done[j]) == k;
    }
  }

  // ---------- the decoder's cursor ----------

  method DecodeCborPrefix(input: Bytes) returns (r: Option<(Value, nat)>)
    ensures r == DecodePrefix(input)
  {
    if |input| == 0 || |input| > MAX_INPUT { return None; }
    var decoder := new Decoder(input);
    var v := decoder.ReadItem(0);
    if v.None? { return None; }
    return Some((v.value, decoder.offset));
  }

  class Decoder {
    const data: Bytes
    var offset: nat

    constructor (data: Bytes)
      ensures this.data == data && offset == 0
    {
      this.data := data;
      offset := 0;
    }

    method Read(count: nat) returns (r: Option<Bytes>)
      requires offset <= |data|
      modifies this
      ensures old(offset) <= offset <= |data|
      ensures if old(offset) + count > |data| then r.None?
              else r == Some(data[old(offset)..old(offset) + count]) && offset == old(offset) + count
    {
      if offset + count > |data| { return None; }
      r := Some(data[offset..offset + count]);
      offset := offset + count;
    }

    method ReadArgument(additional: nat) returns (r: Option<nat>)
      requires offset <= |data|
      modifies this
      ensures old(offset) <= offset <= |data|
      ensures match Argument(data, old(offset), additional)
              case None => r.None?
              case Some(a) => r == Some(a.0) && offset == a.1
    {
      if additional < 24 { return Some(additional); }
      if additional > 27 { return None; }
      var k, least := 8, 0x1_0000_0000;
      if additional == 24 { k, least := 1, 24; }
      if additional == 25 { k, least := 2, 0x100; }
      if additional == 26 { k, least := 4, 0x1_0000; }
      var bytes := Read(k);
      if bytes.None? { return None; }
      var n := Big(bytes.value);
      if n < least || n > MAX_SAFE { return None; }
      return Some(n);
    }

    method ReadItem(depth: nat) returns (r: Option<Value>)
      requires offset <= |data|
      modifies this
      ensures old(offset) <= offset <= |data|
      ensures match Item(data, old(offset), depth)
              case None => r.None?
              case Some(i) => r == Some(Strip(i.0)) && offset == i.1
      decreases |data| - offset, 1
    {
      if depth > MAX_DEPTH { return None; }
      var initial := Read(1);
      if initial.None? { return None; }
      var major, additional := initial.value[0] / 32, initial.value[0] % 32;
      if major == 7 {
        if additional == 20 { return Some(Bool(false)); }
        if additional == 21 { return Some(Bool(true)); }
        if additional == 22 { return Some(Null); }
        return None;
      }
      var length := ReadArgument(additional);
      if length.None? { return None; }
      r := ReadBody(depth, major, length.value);
    }

    method ReadBody(depth: nat, major: nat, length: nat) returns (r: Option<Value>)
      requires offset <= |data|
      modifies this
      ensures old(offset) <= offset <= |data|
      ensures match Body(data, old(offset), depth, major, length)
              case None => r.None?
              case Some(i) => r == Some(Strip(i.0)) && offset == i.1
      decreases |data| - offset, 4
    {
      if major == 0 { return Some(Int(length)); }
      if major == 1 { return Some(Int(-1 - length)); }
      if major == 2 || major == 3 {
        var bytes := Read(length);
        if bytes.None? { return None; }
        if major == 2 { return Some(Bin(bytes.value)); }
        if !ValidUtf8(bytes.value) { return None; }
        return Some(Text(DropBom(bytes.value)));
      }
      if major == 4 {
        if length > |data| { return None; }
        var values := ReadItems(depth + 1, length);
        return if values.None? then None else Some(Arr(values.value));
      }
      if major == 5 {
        if length > |data| { return None; }
        var entries := ReadPairs(depth + 1, length);
        return if entries.None? then None else Some(Map(entries.value));
      }
      return None;
    }

    /** The array loop. */
    method ReadItems(depth: nat, length: nat) returns (r: Option<seq<Value>>)
      requires offset <= |data|
      modifies this
      ensures old(offset) <= offset <= |data|
      ensures match Items(data, old(offset), depth, length, [])
              case None => r.None?
              case Some(i) => r == Some(StripAll(i.0)) && offset == i.1
      decreases |data| - offset, 2
    {
      ghost var start := offset;
      ghost var raw: seq<Value> := [];
      var values: seq<Value> := [];
      var i := 0;
      while i < length
        invariant i <= length && start <= offset <= |data| && values == StripAll(raw)
        invariant Items(data, start, depth, length, []) == Items(data, offset, depth, length - i, raw)
      {
        ghost var next := Item(data, offset, depth);
        var v := ReadItem(depth);
        if v.None? { return None; }
        StripAppend(raw, next.value.0);
        raw := raw + [next.value.0];
        values := values + [v.value];
        i := i + 1;
      }
      return Some(values);
    }

    /** A key that is an integer or a text and not present yet, and its value. */
    method ReadPair(depth: nat, ghost raw: seq<Value>, entries: seq<Value>) returns (r: Option<(Value, Value)>)
      requires offset <= |data| && entries == StripAll(raw)
      modifies this
      ensures old(offset) <= offset <= |data|
      ensures match Pair(data, old(offset), depth, raw)
              case None => r.None?
              case Some(p) => r == Some((Strip(p.0), Strip(p.1))) && old(offset) < offset == p.2
      decreases |data| - offset, 2
    {
      ghost var k := Item(data, offset, depth);
      var key := ReadItem(depth);
      if key.None? { return None; }
      if !IsKey(key.value) { return None; }
      SeenStripped(raw, k.value.0);
      if HasKey(entries, key.value) { return None; }
      var value := ReadItem(depth);
      if value.None? { return None; }
      return Some((key.value, value.value));
    }

    /** The map loop. */
    method ReadPairs(depth: nat, length: nat) returns (r: Option<seq<Value>>)
      requires offset <= |data|
      modifies this
      ensures old(offset) <= offset <= |data|
      ensures match Pairs(data, old(offset), depth, length, [])
              case None => r.None?
              case Some(i) => r == Some(StripAll(i.0)) && offset == i.1
      decreases |data| - offset, 3
    {
      ghost var start := offset;
      ghost var raw: seq<Value> := [];
      var entries: seq<Value> := [];
      var i := 0;
      while i < length
        invariant i <= length && start <= offset <= |data| && entries == StripAll(raw)
        invariant PairsLeft(data, start, length, offset, length - i, depth, raw)
      {
        ghost var next := Pair(data, offset, depth, raw);
        PairsNext(data, start, length, offset, length - i, depth, raw);
        var pair := ReadPair(depth, raw, entries);
        if pair.None? { return None; }
        StripPair(raw, next.value.0, next.value.1);
        raw := raw + [next.value.0, next.value.1];
        entries := entries + [pair.value.0] + [pair.value.1];
        i := i + 1;
      }
      return Some(entries);
    }
  }

  /** Of n pairs from start on, left remain to be read at offset o behind those done. */
  ghost predicate PairsLeft(data: Bytes, start: nat, n: nat, o: nat, left: nat, depth: nat, done: seq<Value>) {
    start <= |data| && o <= |data| && Pairs(data, start, depth, n, []) == Pairs(data, o, depth, left, done)
  }

  /** The next key and value, and where they end. */
  function Pair(data: Bytes, o: nat, depth: nat, done: seq<Value>): (r: Option<(Value, Value, nat)>)
    requires o <= |data|
    ensures r.Some? ==> o < r.value.2 <= |data|
  {
    var k := Item(data, o, depth);
    if k.None? || !IsKey(k.value.0) || Seen(done, k.value.0) then None
    else
      var v := Item(data, k.value.1, depth);
      if v.None? then None else Some((k.value.0, v.value.0, v.value.1))
  }

  lemma PairsNext(data: Bytes, start: nat, n: nat, o: nat, left: nat, depth: nat, done: seq<Value>)
    requires PairsLeft(data, start, n, o, left, depth, done) && left > 0
    ensures match Pair(data, o, depth, done)
      case None => Pairs(data, start, depth, n, []).None?
      case Some(p) => PairsLeft(data, start, n, p.2, left - 1, depth, done + [p.0, p.1])
  {
  }

  // ---------- arguments ----------

  lemma BigRange(s: Bytes)
    ensures |s| == 1 ==> Big(s) < 0x100
    ensures |s| == 2 ==> Big(s) < 0x1_0000
    ensures |s| == 4 ==> Big(s) < 0x1_0000_0000
  {
    var n := |s|;
    assert Pow256(1) == 256 && Pow256(2) == 0x1_0000;
    assert Pow256(4) == 256 * (256 * Pow256(2));
  }

  lemma ArgumentSound(data: Bytes, o: nat, major: nat)
    requires 0 < o <= |data| && major < 7 && data[o - 1] / 32 == major
    requires Argument(data, o, data[o - 1] % 32).Some?
    ensures var (n, p) := Argument(data, o, data[o - 1] % 32).value; data[o - 1..p] == Head(major, n)
  {
    var (n, p) := Argument(data, o, data[o - 1] % 32).value;
    BigRange(data[o..p]);
    ToBigOfBig(data[o..p]);
    assert data[o - 1..p] == [data[o - 1]] + data[o..p];
  }

  lemma Widths()
    ensures Pow256(1) == 0x100 && Pow256(2) == 0x1_0000 && Pow256(4) == 0x1_0000_0000 && MAX_SAFE < Pow256(8)
  {
    assert Pow256(4) == 256 * (256 * Pow256(2));
    assert Pow256(6) == 256 * (256 * Pow256(4));
    assert Pow256(8) == 256 * (256 * Pow256(6));
  }

  lemma WideArgument(data: Bytes, o: nat, n: nat)
    requires 24 <= n <= MAX_SAFE && o + Width(n) <= |data| && data[o..o + Width(n)] == ToBig(n, Width(n))
    ensures Argument(data, o, WidthCode(n)) == Some((n, o + Width(n)))
  {
    Widths();
    BigOfToBig(n, Width(n));
  }

  lemma ArgumentComplete(data: Bytes, o: nat, major: nat, n: nat)
    requires major < 7 && n <= MAX_SAFE && o + |Head(major, n)| <= |data|
    requires data[o..o + |Head(major, n)|] == Head(major, n)
    ensures data[o] / 32 == major
    ensures Argument(data, o + 1, data[o] % 32) == Some((n, o + |Head(major, n)|))
  {
    var h := Head(major, n);
    assert data[o] == data[o..o + |h|][0] == h[0];
    if n >= 24 {
      assert data[o + 1..o + 1 + Width(n)] == data[o..o + |h|][1..] == ToBig(n, Width(n));
      WideArgument(data, o + 1, n);
    }
  }

  // ---------- sequences of items ----------

  lemma {:induction false} ItemsPrefix(data: Bytes, o: nat, depth: nat, n: nat, done: seq<Value>)
    requires o <= |data| && Items(data, o, depth, n, done).Some?
    ensures var vs := Items(data, o, depth, n, done).value.0; |vs| == |done| + n && vs[..|done|] == done
    decreases n
  {
    if n > 0 {
      var v := Item(data, o, depth).value;
      ItemsPrefix(data, v.1, depth, n - 1, done + [v.0]);
      var vs := Items(data, o, depth, n, done).value.0;
      assert vs[..|done|] == vs[..|done| + 1][..|done|];
    }
  }

  lemma KeysPrefix(es: seq<Value>, n: nat)
    requires n <= |es| && KeysOk(es)
    ensures KeysOk(es[..n])
  {
  }

  lemma KeysExtend(done: seq<Value>, k: Value, v: Value)
    requires |done| % 2 == 0 && KeysOk(done)
    ensures KeysOk(done + [k, v]) <==> IsKey(k) && !Seen(done, k)
  {
    var es := done + [k, v];
    assert es[|done|] == k;
    if IsKey(k) && !Seen(done, k) {
      forall i, j | 0 <= i < j < |es| && i % 2 == 0 && j % 2 == 0 ensures Strip(es[i]) != Strip(es[j]) {
        if j == |done| { assert es[i] == done[i]; }
      }
    }
    if Seen(done, k) {
      var i :| 0 <= i < |done| && i % 2 == 0 && Strip(done[i]) == Strip(k);
      assert es[i] == done[i];
    }
  }

  /** Reading n pairs is reading 2 n items whose keys are in order. */
  lemma {:induction false} PairsAreItems(data: Bytes, o: nat, depth: nat, n: nat, done: seq<Value>)
    requires o <= |data| && |done| % 2 == 0 && KeysOk(done)
    ensures Pairs(data, o, depth, n, done).Some? <==>
      Items(data, o, depth, 2 * n, done).Some? && KeysOk(Items(data, o, depth, 2 * n, done).value.0)
    ensures Pairs(data, o, depth, n, done).Some? ==>
      Pairs(data, o, depth, n, done) == Items(data, o, depth, 2 * n, done)
    decreases n
  {
    if n > 0 {
      var k := Item(data, o, depth);
      if k.Some? {
        var v := Item(data, k.value.1, depth);
        if v.Some? {
          var more := done + [k.value.0, v.value.0];
          assert done + [k.value.0] + [v.value.0] == more;
          assert Items(data, o, depth, 2 * n, done) == Items(data, v.value.1, depth, 2 * (n - 1), more);
          KeysExtend(done, k.value.0, v.value.0);
          if KeysOk(more) {
            PairsAreItems(data, v.value.1, depth, n - 1, more);
          } else if Items(data, o, depth, 2 * n, done).Some? {
            ItemsPrefix(data, v.value.1, depth, 2 * (n - 1), more);
            var es := Items(data, o, depth, 2 * n, done).value.0;
            if KeysOk(es) { KeysPrefix(es, |more|); }
          }
        }
      }
    }
  }

  // ---------- soundness: what is accepted is the encoding of a supported value ----------

  /** The bytes from o to p encode v, which is allowed at this depth. */
  ghost predicate Sound(data: Bytes, o: nat, p: nat, depth: nat, v: Value) {
    o <= p <= |data| && Supported(v, depth) && Encode(v) == data[o..p]
  }

  lemma SimpleSound(data: Bytes, o: nat, depth: nat)
    requires o <= |data| && Item(data, o, depth).Some? && data[o] / 32 == 7
    ensures var r := Item(data, o, depth).value; Sound(data, o, r.1, depth, r.0)
  {
  }

  lemma JoinSound(data: Bytes, o: nat, q: nat, p: nat, depth: nat, v: Value)
    requires o < q <= p <= |data| && !Simple(v) && Supported(v, depth)
    requires data[o..q] == Head(Major(v), Arg(v)) && data[q..p] == Payload(v)
    ensures Sound(data, o, p, depth, v)
  {
    assert data[o..p] == data[o..q] + data[q..p];
  }

  lemma {:induction false} ItemSound(data: Bytes, o: nat, depth: nat)
    requires o <= |data| && Item(data, o, depth).Some?
    ensures var r := Item(data, o, depth).value; Sound(data, o, r.1, depth, r.0)
    decreases |data| - o, 0, 0
  {
    var major := data[o] / 32;
    if major == 7 {
      SimpleSound(data, o, depth);
    } else {
      var r := Item(data, o, depth).value;
      var arg := Argument(data, o + 1, data[o] % 32).value;
      BodySound(data, arg.1, depth, major, arg.0);
      ArgumentSound(data, o + 1, major);
      JoinSound(data, o, arg.1, r.1, depth, r.0);
    }
  }

  lemma {:induction false} BodySound(data: Bytes, p: nat, depth: nat, major: nat, n: nat)
    requires p <= |data| && depth <= MAX_DEPTH && n <= MAX_SAFE && Body(data, p, depth, major, n).Some?
    ensures major < 6
    ensures var r := Body(data, p, depth, major, n).value;
      !Simple(r.0) && Major(r.0) == major && Arg(r.0) == n && Payload(r.0) == data[p..r.1] && Supported(r.0, depth)
    decreases |data| - p, 2, 0
  {
    if major == 4 {
      ItemsSound(data, p, depth + 1, n, []);
      var vs := Items(data, p, depth + 1, n, []).value.0;
      assert vs[0..] == vs;
    } else if major == 5 {
      PairsAreItems(data, p, depth + 1, n, []);
      ItemsSound(data, p, depth + 1, 2 * n, []);
      var es := Items(data, p, depth + 1, 2 * n, []).value.0;
      assert es[0..] == es;
    }
  }

  /** vs is `done` and then n items, which the bytes from o to p encode. */
  ghost predicate SoundItems(data: Bytes, o: nat, p: nat, depth: nat, n: nat, done: seq<Value>, vs: seq<Value>) {
    o <= p <= |data| && |vs| == |done| + n && vs[..|done|] == done && EncodeAll(vs[|done|..]) == data[o..p] &&
    AllSupported(vs[|done|..], depth)
  }

  lemma NextSound(data: Bytes, o: nat, q: nat, p: nat, depth: nat, n: nat, done: seq<Value>, v: Value, vs: seq<Value>)
    requires n > 0 && Sound(data, o, q, depth, v) && SoundItems(data, q, p, depth, n - 1, done + [v], vs)
    ensures SoundItems(data, o, p, depth, n, done, vs)
  {
    var k := |done|;
    assert vs[..k] == vs[..k + 1][..k] && vs[k] == vs[..k + 1][k];
    assert vs[k..] == [v] + vs[k + 1..];
    assert data[o..p] == data[o..q] + data[q..p];
  }

  lemma {:induction false} ItemsSound(data: Bytes, o: nat, depth: nat, n: nat, done: seq<Value>)
    requires o <= |data| && Items(data, o, depth, n, done).Some?
    ensures var r := Items(data, o, depth, n, done).value; SoundItems(data, o, r.1, depth, n, done, r.0)
    decreases |data| - o, 1, n
  {
    if n > 0 {
      var r := Items(data, o, depth, n, done).value;
      var v := Item(data, o, depth).value;
      ItemSound(data, o, depth);
      ItemsSound(data, v.1, depth, n - 1, done + [v.0]);
      NextSound(data, o, v.1, r.1, depth, n, done, v.0, r.0);
    }
  }

  // ---------- completeness: every supported encoding is accepted ----------

  lemma EncodeNonempty(v: Value)
    requires Arg(v) <= MAX_SAFE
    ensures |Encode(v)| >= 1
  {
  }

  lemma {:induction false} EncodeAllLength(vs: seq<Value>, depth: nat)
    requires AllSupported(vs, depth)
    ensures |EncodeAll(vs)| >= |vs|
  {
    if vs != [] {
      EncodeNonempty(vs[0]);
      EncodeAllLength(vs[1..], depth);
    }
  }

  ghost predicate At(data: Bytes, o: nat, s: Bytes) {
    o + |s| <= |data| && data[o..o + |s|] == s
  }

  lemma SplitAt(data: Bytes, o: nat, a: Bytes, b: Bytes)
    requires At(data, o, a + b)
    ensures At(data, o, a) && At(data, o + |a|, b)
  {
    assert data[o..o + |a|] == data[o..o + |a + b|][..|a|];
    assert data[o + |a|..o + |a| + |b|] == data[o..o + |a + b|][|a|..];
  }

  /** The item at o is v, and nothing but v. */
  ghost predicate ReadsItem(data: Bytes, o: nat, depth: nat, v: Value) {
    o <= |data| && Item(data, o, depth) == Some((v, o + |Encode(v)|))
  }

  /** The items at o are vs, appended to what is done. */
  ghost predicate ReadsItems(data: Bytes, o: nat, depth: nat, vs: seq<Value>, done: seq<Value>) {
    o <= |data| && Items(data, o, depth, |vs|, done) == Some((done + vs, o + |EncodeAll(vs)|))
  }

  lemma SimpleComplete(data: Bytes, o: nat, depth: nat, v: Value)
    requires Simple(v) && Supported(v, depth) && At(data, o, Encode(v))
    ensures ReadsItem(data, o, depth, v)
  {
    assert data[o] == data[o..o + 1][0];
  }

  lemma HeadComplete(data: Bytes, o: nat, depth: nat, v: Value) returns (p: nat)
    requires !Simple(v) && Supported(v, depth) && At(data, o, Encode(v))
    ensures o < p && p + |Payload(v)| == o + |Encode(v)| && At(data, p, Payload(v))
    ensures Item(data, o, depth) == Body(data, p, depth, Major(v), Arg(v))
  {
    var h := Head(Major(v), Arg(v));
    p := o + |h|;
    SplitAt(data, o, h, Payload(v));
    ArgumentComplete(data, o, Major(v), Arg(v));
  }

  lemma {:induction false} ItemComplete(data: Bytes, o: nat, depth: nat, v: Value)
    requires Supported(v, depth) && At(data, o, Encode(v))
    ensures ReadsItem(data, o, depth, v)
    decreases v, 2
  {
    if Simple(v) {
      SimpleComplete(data, o, depth, v);
    } else {
      var p := HeadComplete(data, o, depth, v);
      BodyComplete(data, p, depth, v);
    }
  }

  lemma {:induction false} BodyComplete(data: Bytes, p: nat, depth: nat, v: Value)
    requires !Simple(v) && Supported(v, depth) && At(data, p, Payload(v))
    ensures Body(data, p, depth, Major(v), Arg(v)) == Some((v, p + |Payload(v)|))
    decreases v, 1
  {
    match v
    case Arr(vs) =>
      ItemsComplete(data, p, depth + 1, vs, []);
      ArrayComplete(data, p, depth, vs);
    case Map(es) =>
      ItemsComplete(data, p, depth + 1, es, []);
      MapComplete(data, p, depth, es);
    case _ =>
  }

  lemma ArrayComplete(data: Bytes, p: nat, depth: nat, vs: seq<Value>)
    requires AllSupported(vs, depth + 1) && At(data, p, EncodeAll(vs)) && ReadsItems(data, p, depth + 1, vs, [])
    ensures Body(data, p, depth, 4, |vs|) == Some((Arr(vs), p + |EncodeAll(vs)|))
  {
    EncodeAllLength(vs, depth + 1);
    assert [] + vs == vs;
  }

  lemma MapComplete(data: Bytes, p: nat, depth: nat, es: seq<Value>)
    requires |es| % 2 == 0 && KeysOk(es) && AllSupported(es, depth + 1)
    requires At(data, p, EncodeAll(es)) && ReadsItems(data, p, depth + 1, es, [])
    ensures Body(data, p, depth, 5, |es| / 2) == Some((Map(es), p + |EncodeAll(es)|))
  {
    EncodeAllLength(es, depth + 1);
    PairsComplete(data, p, depth + 1, es);
  }

  lemma PairsComplete(data: Bytes, p: nat, depth: nat, es: seq<Value>)
    requires |es| % 2 == 0 && KeysOk(es) && ReadsItems(data, p, depth, es, [])
    ensures Pairs(data, p, depth, |es| / 2, []) == Some((es, p + |EncodeAll(es)|))
  {
    assert [] + es == es;
    PairsAreItems(data, p, depth, |es| / 2, []);
  }

  lemma HeadAndTail(done: seq<Value>, vs: seq<Value>)
    requires vs != []
    ensures done + [vs[0]] + vs[1..] == done + vs
  {
  }

  lemma NextItem(data: Bytes, o: nat, depth: nat, n: nat, done: seq<Value>)
    requires o <= |data| && n > 0 && Item(data, o, depth).Some?
    ensures var v := Item(data, o, depth).value;
      Items(data, o, depth, n, done) == Items(data, v.1, depth, n - 1, done + [v.0])
  {
  }

  lemma NoItems(data: Bytes, o: nat, depth: nat, done: seq<Value>)
    requires o <= |data|
    ensures ReadsItems(data, o, depth, [], done)
  {
    assert done + [] == done;
  }

  lemma {:induction false} ItemsComplete(data: Bytes, o: nat, depth: nat, vs: seq<Value>, done: seq<Value>)
    requires AllSupported(vs, depth) && At(data, o, EncodeAll(vs))
    ensures ReadsItems(data, o, depth, vs, done)
    decreases vs, 0
  {
    if vs == [] {
      NoItems(data, o, depth, done);
    } else {
      var p := SplitAll(data, o, depth, vs);
      ItemComplete(data, o, depth, vs[0]);
      ItemsComplete(data, p, depth, vs[1..], done + [vs[0]]);
      ItemsStep(data, o, p, depth, vs, done);
    }
  }

  lemma EncodeAllNext(vs: seq<Value>)
    requires vs != []
    ensures EncodeAll(vs) == Encode(vs[0]) + EncodeAll(vs[1..])
  {
  }

  lemma SplitAll(data: Bytes, o: nat, depth: nat, vs: seq<Value>) returns (p: nat)
    requires vs != [] && AllSupported(vs, depth) && At(data, o, EncodeAll(vs))
    ensures Supported(vs[0], depth) && AllSupported(vs[1..], depth) && |Encode(vs[0])| > 0
    ensures p == o + |Encode(vs[0])| && At(data, o, Encode(vs[0])) && At(data, p, EncodeAll(vs[1..]))
  {
    p := o + |Encode(vs[0])|;
    EncodeNonempty(vs[0]);
    EncodeAllNext(vs);
    SplitAt(data, o, Encode(vs[0]), EncodeAll(vs[1..]));
  }

  lemma ItemsStep(data: Bytes, o: nat, p: nat, depth: nat, vs: seq<Value>, done: seq<Value>)
    requires vs != [] && p == o + |Encode(vs[0])| && ReadsItem(data, o, depth, vs[0])
    requires ReadsItems(data, p, depth, vs[1..], done + [vs[0]])
    ensures ReadsItems(data, o, depth, vs, done)
  {
    NextItem(data, o, depth, |vs|, done);
    HeadAndTail(done, vs);
  }

  // ---------- byte order marks ----------

  predicate BomFree(v: Value)
    decreases v, 1
  {
    match v
    case Text(s) => !HasBom(s)
    case Arr(vs) => AllBomFree(vs)
    case Map(es) => AllBomFree(es)
    case _ => true
  }

  predicate AllBomFree(vs: seq<Value>)
    decreases vs, 0
  {
    if vs == [] then true else BomFree(vs[0]) && AllBomFree(vs[1..])
  }

  lemma HeadGrows(major: nat, m: nat, n: nat)
    requires major < 7 && m <= n <= MAX_SAFE
    ensures |Head(major, m)| <= |Head(major, n)|
  {
  }

  /** Dropping marks never lengthens an encoding, and keeps its length only if there was none. */
  lemma {:induction false} StripShrinks(v: Value, depth: nat)
    requires Supported(v, depth)
    ensures Arg(Strip(v)) <= MAX_SAFE
    ensures BomFree(v) ==> Strip(v) == v
    ensures !BomFree(v) ==> |Encode(Strip(v))| < |Encode(v)|
    decreases v, 1
  {
    match v
    case Text(s) => HeadGrows(3, |DropBom(s)|, |s|);
    case Arr(vs) => StripAllShrinks(vs, depth + 1);
    case Map(es) => StripAllShrinks(es, depth + 1);
    case _ =>
  }

  lemma {:induction false} StripAllShrinks(vs: seq<Value>, depth: nat)
    requires AllSupported(vs, depth)
    ensures AllBomFree(vs) ==> StripAll(vs) == vs
    ensures !AllBomFree(vs) ==> |EncodeAll(StripAll(vs))| < |EncodeAll(vs)|
    decreases vs, 0
  {
    if vs != [] {
      StripShrinks(vs[0], depth);
      StripAllShrinks(vs[1..], depth);
      assert StripAll(vs)[1..] == StripAll(vs[1..]);
    }
  }

  // ---------- the encodings of one value ----------

  function Mark(s: Bytes): Bytes { [0xEF, 0xBB, 0xBF] + s }

  lemma MarkedIsValid(s: Bytes)
    ensures ValidUtf8(Mark(s)) <==> ValidUtf8(s)
    ensures HasBom(Mark(s)) && DropBom(Mark(s)) == s
  {
    assert Mark(s)[3..] == s && Tails(Mark(s)[1..], 2);
  }

  /** Before stripping: the shortest value handed out as v. A text that is to begin with a mark needs
      another one in front. */
  function Least(v: Value): Value
    decreases v, 1
  {
    match v
    case Text(s) => if HasBom(s) then Text(Mark(s)) else v
    case Arr(vs) => Arr(LeastAll(vs))
    case Map(es) => Map(LeastAll(es))
    case _ => v
  }

  function LeastAll(vs: seq<Value>): (r: seq<Value>)
    ensures |r| == |vs|
    decreases vs, 0
  {
    if vs == [] then [] else [Least(vs[0])] + LeastAll(vs[1..])
  }

  function HeadSize(arg: nat): nat { if arg < 24 then 1 else 1 + Width(arg) }

  /** The fewest extra bytes it takes to put a mark in front of some text that begins with none. */
  function Extra(v: Value): Option<nat>
    decreases v, 1
  {
    match v
    case Text(s) => if HasBom(s) then None else Some(HeadSize(|s| + 3) + 3 - HeadSize(|s|))
    case Arr(vs) => ExtraAll(vs)
    case Map(es) => ExtraAll(es)
    case _ => None
  }

  function ExtraAll(vs: seq<Value>): Option<nat>
    decreases vs, 0
  {
    if vs == [] then None else Fewer(Extra(vs[0]), ExtraAll(vs[1..]))
  }

  function Fewer(a: Option<nat>, b: Option<nat>): Option<nat> {
    if a.None? then b else if b.None? || a.value <= b.value then a else b
  }

  /** Before stripping: a next shortest value handed out as v. */
  function Loose(v: Value): Value
    decreases v, 1
  {
    match v
    case Text(s) => Text(Mark(s))
    case Arr(vs) => Arr(LooseAll(vs))
    case Map(es) => Map(LooseAll(es))
    case _ => v
  }

  function LooseAll(vs: seq<Value>): (r: seq<Value>)
    ensures |r| == |vs|
    decreases vs, 0
  {
    if vs == [] then []
    else if Extra(vs[0]).Some? && Fewer(Extra(vs[0]), ExtraAll(vs[1..])) == Extra(vs[0]) then
      [Loose(vs[0])] + LeastAll(vs[1..])
    else [Least(vs[0])] + LooseAll(vs[1..])
  }

  lemma EntriesStripped(a: seq<Value>, b: seq<Value>)
    requires StripAll(a) == StripAll(b) && KeysOk(a)
    ensures |a| == |b| && KeysOk(b)
  {
    assert |StripAll(a)| == |a|;
    forall i | 0 <= i < |b| ensures Strip(b[i]) == Strip(a[i]) && (IsKey(b[i]) <==> IsKey(a[i])) {
      StrippedAt(a, b, i);
    }
  }

  lemma StrippedAt(a: seq<Value>, b: seq<Value>, i: nat)
    requires StripAll(a) == StripAll(b) && i < |b|
    ensures |a| == |b| && Strip(b[i]) == Strip(a[i]) && (IsKey(b[i]) <==> IsKey(a[i]))
  {
    assert |StripAll(a)| == |a|;
    StripElements(a);
    StripElements(b);
    assert StripAll(b)[i] == StripAll(a)[i];
    assert IsKey(a[i]) <==> IsKey(Strip(a[i]));
    assert IsKey(b[i]) <==> IsKey(Strip(b[i]));
  }

  lemma SizeOf(v: Value)
    requires Arg(v) <= MAX_SAFE
    ensures |Encode(v)| == (if Simple(v) then 1 else HeadSize(Arg(v)) + |Payload(v)|)
  {
  }

  /** raw is the least value handed out as v, or longer by at least the extra bytes of one mark. */
  ghost predicate Longer(raw: nat, least: nat, extra: Option<nat>) {
    extra.Some? && raw >= least + extra.value
  }

  lemma {:induction false} LeastIsLeast(raw: Value, depth: nat)
    requires Supported(raw, depth)
    ensures LeastFits(raw, depth)
    decreases raw, 1
  {
    match raw
    case Text(s) => LeastText(s, depth);
    case Arr(vs) =>
      LeastAllIsLeast(vs, depth + 1);
      SizeOf(raw);
      SizeOf(Least(Strip(raw)));
    case Map(es) =>
      LeastAllIsLeast(es, depth + 1);
      EntriesStripped(es, LeastAll(StripAll(es)));
      SizeOf(raw);
      SizeOf(Least(Strip(raw)));
    case _ =>
  }

  lemma LeastText(s: Bytes, depth: nat)
    requires Supported(Text(s), depth)
    ensures LeastFits(Text(s), depth)
  {
    var t := DropBom(s);
    MarkedIsValid(t);
    SizeOf(Text(s));
    if HasBom(s) {
      assert s == Mark(t);
      if !HasBom(t) { SizeOf(Text(t)); }
    }
  }

  ghost predicate LeastFits(raw: Value, depth: nat) {
    var v := Strip(raw);
    Strip(Least(v)) == v && Supported(Least(v), depth) &&
    (raw == Least(v) || Longer(|Encode(raw)|, |Encode(Least(v))|, Extra(v)))
  }

  ghost predicate LeastAllFit(vs: seq<Value>, depth: nat) {
    var us := StripAll(vs);
    StripAll(LeastAll(us)) == us && AllSupported(LeastAll(us), depth) &&
    (vs == LeastAll(us) || Longer(|EncodeAll(vs)|, |EncodeAll(LeastAll(us))|, ExtraAll(us)))
  }

  lemma LeastAllNext(vs: seq<Value>, depth: nat)
    requires vs != [] && LeastFits(vs[0], depth) && LeastAllFit(vs[1..], depth)
    ensures LeastAllFit(vs, depth)
  {
    var us := StripAll(vs);
    assert us[1..] == StripAll(vs[1..]) && us[0] == Strip(vs[0]);
    assert LeastAll(us)[1..] == LeastAll(us[1..]) && LeastAll(us)[0] == Least(us[0]);
  }

  lemma {:induction false} LeastAllIsLeast(vs: seq<Value>, depth: nat)
    requires AllSupported(vs, depth)
    ensures LeastAllFit(vs, depth)
    decreases vs, 0
  {
    if vs != [] {
      LeastIsLeast(vs[0], depth);
      LeastAllIsLeast(vs[1..], depth);
      LeastAllNext(vs, depth);
    }
  }

  lemma {:induction false} LooseIsNext(v: Value, depth: nat)
    requires Supported(Least(v), depth) && Strip(Least(v)) == v && Extra(v).Some?
    requires |Encode(Least(v))| <= MAX_INPUT
    ensures Supported(Loose(v), depth) && Strip(Loose(v)) == v
    ensures |Encode(Loose(v))| == |Encode(Least(v))| + Extra(v).value
    decreases v, 1
  {
    match v
    case Text(s) =>
      MarkedIsValid(s);
      SizeOf(v);
      SizeOf(Text(Mark(s)));
    case Arr(vs) =>
      SizeOf(Least(v));
      LooseAllIsNext(vs, depth + 1);
      SizeOf(Loose(v));
    case Map(es) =>
      SizeOf(Least(v));
      LooseAllIsNext(es, depth + 1);
      EntriesStripped(LeastAll(es), LooseAll(es));
      SizeOf(Loose(v));
    case _ =>
  }

  lemma {:induction false} LooseAllIsNext(vs: seq<Value>, depth: nat)
    requires AllSupported(LeastAll(vs), depth) && StripAll(LeastAll(vs)) == vs && ExtraAll(vs).Some?
    requires |EncodeAll(LeastAll(vs))| <= MAX_INPUT
    ensures AllSupported(LooseAll(vs), depth) && StripAll(LooseAll(vs)) == vs
    ensures |EncodeAll(LooseAll(vs))| == |EncodeAll(LeastAll(vs))| + ExtraAll(vs).value
    decreases vs, 0
  {
    assert LeastAll(vs)[0] == Least(vs[0]) && LeastAll(vs)[1..] == LeastAll(vs[1..]);
    assert vs[1..] == StripAll(LeastAll(vs[1..]));
    assert vs == [vs[0]] + vs[1..];
    if Extra(vs[0]).Some? && Fewer(Extra(vs[0]), ExtraAll(vs[1..])) == Extra(vs[0]) {
      LooseIsNext(vs[0], depth);
      assert LooseAll(vs)[1..] == LeastAll(vs[1..]);
    } else {
      LooseAllIsNext(vs[1..], depth);
      assert LooseAll(vs)[1..] == LooseAll(vs[1..]);
    }
  }

  // ---------- main results ----------

  /** Every accepted input starts with the preferred serialization of a supported value, which the
      decoder hands out with byte order marks dropped. Re-encoding what was handed out gives exactly
      the consumed bytes if and only if no text in them began with a mark. */
  lemma AcceptedIsCanonical(input: Bytes) returns (raw: Value)
    requires DecodePrefix(input).Some?
    ensures var r := DecodePrefix(input).value;
      0 < r.1 <= |input| && Supported(raw, 0) && Encode(raw) == input[..r.1] && r.0 == Strip(raw) &&
      (Encode(r.0) == input[..r.1] <==> BomFree(raw))
  {
    ItemSound(input, 0, 0);
    raw := Item(input, 0, 0).value.0;
    StripShrinks(raw, 0);
  }

  /** Decoding inverts encoding for every supported value up to 1 MiB whose texts begin with no mark,
      and only for these. */
  lemma DecodeInvertsEncode(v: Value)
    requires Supported(v, 0) && |Encode(v)| <= MAX_INPUT
    ensures DecodeWhole(Encode(v)) == Some(Strip(v))
    ensures DecodeWhole(Encode(v)) == Some(v) <==> BomFree(v)
  {
    EncodeNonempty(v);
    var input := Encode(v);
    assert input[0..0 + |input|] == input;
    ItemComplete(input, 0, 0, v);
    StripShrinks(v, 0);
  }

  lemma WholeIsEncoded(a: Bytes) returns (raw: Value)
    requires DecodeWhole(a).Some?
    ensures Supported(raw, 0) && a == Encode(raw) && DecodeWhole(a).value == Strip(raw) && |a| <= MAX_INPUT
  {
    raw := AcceptedIsCanonical(a);
    assert a[..|a|] == a;
  }

  /** Bytes that decode to v can be chosen in one shortest way, the preferred serialization of v itself
      when no text of v begins with a mark; any other choice is longer by at least one more mark. */
  lemma OneShortestEncoding(v: Value, a: Bytes)
    requires DecodeWhole(a) == Some(v)
    ensures DecodeWhole(Encode(Least(v))) == Some(v)
    ensures a == Encode(Least(v)) || Longer(|a|, |Encode(Least(v))|, Extra(v))
    ensures BomFree(v) ==> Least(v) == v
  {
    var raw := WholeIsEncoded(a);
    LeastIsLeast(raw, 0);
    DecodeInvertsEncode(Least(v));
    LeastOfMarkFree(v);
  }

  lemma {:induction false} LeastOfMarkFree(v: Value)
    ensures BomFree(v) ==> Least(v) == v
    decreases v, 1
  {
    match v
    case Arr(vs) => LeastAllOfMarkFree(vs);
    case Map(es) => LeastAllOfMarkFree(es);
    case _ =>
  }

  lemma {:induction false} LeastAllOfMarkFree(vs: seq<Value>)
    ensures AllBomFree(vs) ==> LeastAll(vs) == vs
    decreases vs, 0
  {
    if vs != [] {
      LeastOfMarkFree(vs[0]);
      LeastAllOfMarkFree(vs[1..]);
      assert vs == [vs[0]] + vs[1..];
    }
  }

  /** No text of v that begins without a mark has room for one within the size limit. */
  predicate Full(v: Value) {
    Extra(v).None? || |Encode(Least(v))| + Extra(v).value > MAX_INPUT
  }

  /** A value has one encoding exactly when none of its texts has room for a mark. */
  lemma OneEncodingPerValue(v: Value, a: Bytes)
    requires DecodeWhole(a) == Some(v)
    ensures (forall b :: DecodeWhole(b) == Some(v) ==> b == a) <==> Full(v)
  {
    OneShortestEncoding(v, a);
    forall b | DecodeWhole(b) == Some(v) && Full(v) ensures b == a {
      SingleWhenFull(v, a);
      SingleWhenFull(v, b);
    }
    if !Full(v) {
      var raw := WholeIsEncoded(a);
      LeastIsLeast(raw, 0);
      LooseIsNext(v, 0);
      MarksCost(v);
      DecodeInvertsEncode(Loose(v));
      assert DecodeWhole(Encode(Loose(v))) == Some(v) && Encode(Loose(v)) != Encode(Least(v));
    }
  }

  lemma {:induction false} MarksCost(v: Value)
    ensures Extra(v).Some? ==> Extra(v).value >= 3
    decreases v, 1
  {
    match v
    case Arr(vs) => MarksCostAll(vs);
    case Map(es) => MarksCostAll(es);
    case _ =>
  }

  lemma {:induction false} MarksCostAll(vs: seq<Value>)
    ensures ExtraAll(vs).Some? ==> ExtraAll(vs).value >= 3
    decreases vs, 0
  {
    if vs != [] {
      MarksCost(vs[0]);
      MarksCostAll(vs[1..]);
    }
  }

  lemma SingleWhenFull(v: Value, b: Bytes)
    requires DecodeWhole(b) == Some(v) && Full(v)
    ensures b == Encode(Least(v))
  {
    OneShortestEncoding(v, b);
    var raw := WholeIsEncoded(b);
  }

  /** The text "a" has two encodings. */
  lemma TwoEncodings()
    ensures DecodeWhole([0x61, 0x61]) == Some(Text([0x61]))
    ensures DecodeWhole([0x64, 0xEF, 0xBB, 0xBF, 0x61]) == Some(Text([0x61]))
  {
    var plain, marked := Text([0x61]), Text(Mark([0x61]));
    assert ValidUtf8([0x61]) by { assert [0x61][1..] == []; }
    MarkedIsValid([0x61]);
    assert Encode(plain) == [0x61, 0x61] && Encode(marked) == [0x64, 0xEF, 0xBB, 0xBF, 0x61];
    DecodeInvertsEncode(plain);
    DecodeInvertsEncode(marked);
  }

  /** A tail within the size limit never changes a prefix decode. */
  lemma TailChangesNothing(input: Bytes, tail: Bytes)
    requires DecodePrefix(input).Some? && |input| + |tail| <= MAX_INPUT
    ensures DecodePrefix(input + tail) == DecodePrefix(input)
  {
    ItemSound(input, 0, 0);
    var r := Item(input, 0, 0).value;
    assert (input + tail)[0..0 + |Encode(r.0)|] == input[0..r.1];
    ItemComplete(input + tail, 0, 0, r.0);
  }
}
