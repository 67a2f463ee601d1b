/** The transcript encoding byte by byte: where every field stands, and which byte strings are transcripts. */
module TranscriptLayout {
  import opened Wrappers
  import opened ByteCodec
  import opened Transcript

  // ---------- where the fields of a block stand ----------

  lemma FieldAt(b: Bytes, sizes: seq<nat>, k: nat, start: nat, end: nat)
    requires |b| == Total(sizes) && k < |sizes| && start == Total(sizes[..k]) && end == start + sizes[k]
    ensures end <= |b| && Chop(b, sizes)[k] == b[start..end]
  {
    ChopAt(b, sizes, k);
  }

  lemma HeadStarts()
    ensures var s := HeadSizes();
      Total(s[..0]) == 0 && Total(s[..1]) == 1 && Total(s[..2]) == 33 && Total(s[..3]) == 65 && Total(s[..4]) == 97 &&
      Total(s[..5]) == 98 && Total(s[..6]) == 102 && Total(s[..7]) == 110
  {
    var s := HeadSizes();
    assert s[..0] == [];
    TotalNext(s, 0); TotalNext(s, 1); TotalNext(s, 2); TotalNext(s, 3); TotalNext(s, 4); TotalNext(s, 5);
    TotalNext(s, 6);
  }

  lemma HeadAt(b: Bytes)
    requires |b| == 114
    ensures var h := HeadOf(b); h[0] == b[0..1] && h[1] == b[1..33] && h[2] == b[33..65] && h[3] == b[65..97]
  {
    Totals(0);
    HeadStarts();
    var s := HeadSizes();
    FieldAt(b, s, 0, 0, 1); FieldAt(b, s, 1, 1, 33); FieldAt(b, s, 2, 33, 65); FieldAt(b, s, 3, 65, 97);
  }

  lemma NumbersAt(b: Bytes)
    requires |b| == 114
    ensures var h := HeadOf(b);
      h[4] == b[97..98] && h[5] == b[98..102] && h[6] == b[102..110] && h[7] == b[110..114]
  {
    Totals(0);
    HeadStarts();
    var s := HeadSizes();
    FieldAt(b, s, 4, 97, 98); FieldAt(b, s, 5, 98, 102); FieldAt(b, s, 6, 102, 110); FieldAt(b, s, 7, 110, 114);
  }

  lemma ChallengeStarts()
    ensures var s := ChallengeSizes();
      Total(s[..0]) == 0 && Total(s[..1]) == 32 && Total(s[..2]) == 96 && Total(s[..3]) == 104 &&
      Total(s[..4]) == 108 && Total(s[..5]) == 110
  {
    var s := ChallengeSizes();
    assert s[..0] == [];
    TotalNext(s, 0); TotalNext(s, 1); TotalNext(s, 2); TotalNext(s, 3); TotalNext(s, 4);
  }

  lemma NonceAt(b: Bytes)
    requires |b| == 111
    ensures var fs := ChallengeOf(b); fs[0] == b[0..32] && fs[1] == b[32..96] && fs[2] == b[96..104]
  {
    Totals(0);
    ChallengeStarts();
    var s := ChallengeSizes();
    FieldAt(b, s, 0, 0, 32); FieldAt(b, s, 1, 32, 96); FieldAt(b, s, 2, 96, 104);
  }

  lemma CounterAt(b: Bytes)
    requires |b| == 111
    ensures var fs := ChallengeOf(b); fs[3] == b[104..108] && fs[4] == b[108..110] && fs[5] == b[110..111]
  {
    Totals(0);
    ChallengeStarts();
    var s := ChallengeSizes();
    FieldAt(b, s, 3, 104, 108); FieldAt(b, s, 4, 108, 110); FieldAt(b, s, 5, 110, 111);
  }

  lemma ChallengeFieldsAt(b: Bytes)
    requires |b| == 111
    ensures var c := ReadChallenge(b);
      c.nonce == b[0..32] && c.signature == b[32..96] && c.timestamp == Little(b[96..104]) &&
      c.counter == Little(b[104..108]) && c.roundTrip == Little(b[108..110]) && c.rssi == FromByte(b[110])
  {
    NonceAt(b);
    CounterAt(b);
  }

  lemma LocalStarts()
    ensures var s := LocalSizes();
      Total(s[..0]) == 0 && Total(s[..1]) == 6 && Total(s[..2]) == 8 && Total(s[..3]) == 10 && Total(s[..4]) == 11
  {
    var s := LocalSizes();
    assert s[..0] == [];
    TotalNext(s, 0); TotalNext(s, 1); TotalNext(s, 2); TotalNext(s, 3);
  }

  lemma LocalFieldsAt(b: Bytes, samples: Bytes)
    requires |b| == 47
    ensures var l := ReadLocal(b, samples);
      l.geohash6 == b[..6] && l.gpsAccuracy == Little(b[6..8]) && l.barometer == Little(b[8..10]) &&
      l.motion == Little(b[10..11]) && l.wifi == b[11..43] && l.samples == SampleValues(samples)
  {
    Totals(0);
    LocalStarts();
    var s := LocalSizes();
    FieldAt(b, s, 0, 0, 6); FieldAt(b, s, 1, 6, 8); FieldAt(b, s, 2, 8, 10); FieldAt(b, s, 3, 10, 11);
    FieldAt(b, s, 4, 11, 43);
    assert b[0..6] == b[..6];
  }

  lemma TailStarts()
    ensures var s := TailSizes();
      Total(s[..0]) == 0 && Total(s[..1]) == 32 && Total(s[..2]) == 64 && Total(s[..3]) == 96
  {
    var s := TailSizes();
    assert s[..0] == [];
    TotalNext(s, 0); TotalNext(s, 1); TotalNext(s, 2);
  }

  lemma TailAt(b: Bytes)
    requires |b| == 97
    ensures var e := TailOf(b);
      e[0] == b[..32] && e[1] == b[32..64] && e[2] == b[64..96] && e[3] == b[96..97]
  {
    Totals(0);
    TailStarts();
    var s := TailSizes();
    FieldAt(b, s, 0, 0, 32); FieldAt(b, s, 1, 32, 64); FieldAt(b, s, 2, 64, 96); FieldAt(b, s, 3, 96, 97);
    assert b[0..32] == b[..32];
  }

  lemma SliceOf(data: Bytes, o: nat, end: nat, a: nat, b: nat)
    requires o <= end <= |data| && a <= b <= end - o
    ensures data[o..end][a..b] == data[o + a..o + b]
  {
    assert |data[o..end][a..b]| == b - a;
    assert forall i :: 0 <= i < b - a ==> data[o..end][a..b][i] == data[o + a..o + b][i];
  }

  // ---------- the layout ----------

  /** The challenge whose bytes begin at o. */
  predicate ChallengeStandsAt(data: Bytes, o: nat, c: Challenge)
    requires o + 111 <= |data|
  {
    c.nonce == data[o..o + 32] && c.signature == data[o + 32..o + 96] && c.timestamp == Little(data[o + 96..o + 104]) &&
    c.counter == Little(data[o + 104..o + 108]) && c.roundTrip == Little(data[o + 108..o + 110]) &&
    c.rssi == Signed(data[o + 110])
  }

  /** A byte as a signed number. */
  function Signed(b: Byte): int { if b < 128 then b else b - 256 }

  predicate LocalStandsAt(data: Bytes, n: nat, l: Local)
    requires |data| == 591 + n
  {
    l.geohash6 == data[447..453] && l.gpsAccuracy == Little(data[453..455]) &&
    l.barometer == Little(data[455..457]) && l.motion == data[457] && l.wifi == data[458..490] && |l.samples| == n &&
    forall i :: 0 <= i < n ==> l.samples[i] == Signed(data[494 + i])
  }

  predicate EndsStandAt(data: Bytes, n: nat, t: Transcript)
    requires |data| == 591 + n
  {
    t.protocolID == data[1..33] && t.deviceID == data[33..65] && t.publicKey == data[65..97] && t.curve == data[97] &&
    t.epoch == Little(data[98..102]) && t.time == Little(data[102..110]) &&
    t.evidenceHash == data[494 + n..526 + n] && t.pseudonym == data[526 + n..558 + n] &&
    t.nullifier == data[558 + n..590 + n] && t.observerClass == data[590 + n]
  }

  lemma ChallengeIsThere(data: Bytes, o: nat)
    requires o + 111 <= |data|
    ensures ChallengeStandsAt(data, o, ReadChallenge(data[o..o + 111]))
  {
    var b := data[o..o + 111];
    ChallengeFieldsAt(b);
    SliceOf(data, o, o + 111, 0, 32); SliceOf(data, o, o + 111, 32, 96); SliceOf(data, o, o + 111, 96, 104);
    SliceOf(data, o, o + 111, 104, 108); SliceOf(data, o, o + 111, 108, 110);
  }

  lemma OneByte(b: Bytes)
    requires |b| == 1
    ensures Little(b) == b[0]
  {
    assert b[1..] == [];
  }

  lemma LocalIsThere(data: Bytes, n: nat)
    requires |data| == 591 + n
    ensures LocalStandsAt(data, n, ReadLocal(data[447..494], data[494..494 + n]))
  {
    var b := data[447..494];
    LocalFieldsAt(b, data[494..494 + n]);
    SliceOf(data, 447, 494, 0, 6); SliceOf(data, 447, 494, 6, 8); SliceOf(data, 447, 494, 8, 10);
    SliceOf(data, 447, 494, 10, 11); SliceOf(data, 447, 494, 11, 43);
    assert b[..6] == b[0..6];
    OneByte(b[10..11]);
  }

  lemma HeadIsThere(data: Bytes, n: nat)
    requires |data| == 591 + n
    ensures var t, h := TranscriptAt(data, n), HeadOf(data[..114]);
      t.protocolID == data[1..33] && t.deviceID == data[33..65] && t.publicKey == data[65..97] && t.curve == data[97] &&
      t.epoch == Little(data[98..102]) && t.time == Little(data[102..110]) && h[0] == [data[0]] &&
      h[7] == data[110..114]
  {
    var b := data[..114];
    HeadAt(b);
    NumbersAt(b);
    assert b[1..33] == data[1..33] && b[33..65] == data[33..65] && b[65..97] == data[65..97];
    assert b[97..98] == [data[97]] && b[0..1] == [data[0]];
    assert b[98..102] == data[98..102] && b[102..110] == data[102..110] && b[110..114] == data[110..114];
    OneByte(b[97..98]);
  }

  lemma TailIsThere(data: Bytes, n: nat)
    requires |data| == 591 + n
    ensures var t := TranscriptAt(data, n);
      t.evidenceHash == data[494 + n..526 + n] && t.pseudonym == data[526 + n..558 + n] &&
      t.nullifier == data[558 + n..590 + n] && t.observerClass == data[590 + n]
  {
    var b := data[494 + n..];
    TailAt(b);
    assert b[..32] == data[494 + n..526 + n] && b[32..64] == data[526 + n..558 + n];
    assert b[64..96] == data[558 + n..590 + n] && b[96..97] == [data[590 + n]];
    OneByte(b[96..97]);
  }

  /** In every accepted transcript each field stands at its offset, whole, and in its byte order. */
  lemma LayoutIsFixed(data: Bytes, minimum: nat)
    requires Decode(data, minimum).Some?
    ensures 591 <= |data| <= 611
    ensures var t, n := Decode(data, minimum).value, |data| - 591;
      EndsStandAt(data, n, t) && LocalStandsAt(data, n, t.local) && |t.challenges| == 3 &&
      ChallengeStandsAt(data, 114, t.challenges[0]) && ChallengeStandsAt(data, 225, t.challenges[1]) &&
      ChallengeStandsAt(data, 336, t.challenges[2])
  {
    var n := |data| - 591;
    DecodeAt(data, minimum);
    HeadIsThere(data, n);
    TailIsThere(data, n);
    LocalIsThere(data, n);
    ChallengeIsThere(data, 114);
    ChallengeIsThere(data, 225);
    ChallengeIsThere(data, 336);
  }

  // ---------- the grammar ----------

  const PRIME: nat := 21888242871839275222246405745257275088548364400416034343698204186575808495617

  /** The digits and the small letters without a, i, l and o. */
  predicate Base32(b: Byte) {
    var c := b as char;
    c in "0123456789" || c in "bcdefgh" || c in "jk" || c in "mn" || c in "pqrstuvwxyz"
  }

  predicate Rssi(b: Byte) { b == 0 || b >= 129 }

  /** n is the number of samples. */
  predicate HeadGrammar(data: Bytes, n: nat)
    requires |data| == 591 + n
  {
    data[0] == 0 && data[1..33] != seq(32, _ => 0) && data[97] in {1, 2} && data[110..114] == [3, 0, 0, 0]
  }

  predicate ChallengeGrammar(data: Bytes, n: nat)
    requires |data| == 591 + n
  {
    Rssi(data[224]) && Rssi(data[335]) && Rssi(data[446]) && data[114..146] != data[225..257] &&
    data[114..146] != data[336..368] && data[225..257] != data[336..368]
  }

  predicate LocalGrammar(data: Bytes, n: nat)
    requires |data| == 591 + n
  {
    && (data[447..453] == [0, 0, 0, 0, 0, 0] || forall i :: 447 <= i < 453 ==> Base32(data[i]))
    && data[457] < 4 && data[490..494] == [n, 0, 0, 0]
    && (forall i :: 494 <= i < 494 + n ==> Rssi(data[i]))
  }

  predicate TailGrammar(data: Bytes, n: nat)
    requires |data| == 591 + n
  {
    Big(data[526 + n..558 + n]) < PRIME && Big(data[558 + n..590 + n]) < PRIME && data[590 + n] in {1, 2, 3}
  }

  predicate Grammar(data: Bytes, minimum: nat) {
    591 + minimum <= |data| <= 611 && minimum <= 5 &&
    var n := |data| - 591;
    HeadGrammar(data, n) && ChallengeGrammar(data, n) && LocalGrammar(data, n) && TailGrammar(data, n)
  }

  lemma LetterOfBase32(b: Byte)
    ensures GeohashByte(b) <==> Base32(b)
  {
    if 48 <= b <= 57 { assert "0123456789"[b - 48] == b as char; }
    if 98 <= b <= 104 { assert "bcdefgh"[b - 98] == b as char; }
    if 106 <= b <= 107 { assert "jk"[b - 106] == b as char; }
    if 109 <= b <= 110 { assert "mn"[b - 109] == b as char; }
    if 112 <= b <= 122 { assert "pqrstuvwxyz"[b - 112] == b as char; }
  }

  /** Four bytes hold a small number in their first. */
  lemma SmallCount(b: Bytes, n: nat)
    requires |b| == 4 && n < 256
    ensures Little(b) == n <==> b == [n, 0, 0, 0]
  {
    assert Little(b) == b[0] + 256 * Little(b[1..]);
    assert Little(b[1..]) == b[1] + 256 * Little(b[2..]);
    assert Little(b[2..]) == b[2] + 256 * Little(b[3..]);
    OneByte(b[3..]);
    assert b[1..][1..] == b[2..] && b[2..][1..] == b[3..];
  }

  lemma Nonzero(s: Bytes)
    requires |s| == 32
    ensures (exists i :: 0 <= i < 32 && s[i] != 0) <==> s != seq(32, _ => 0)
  {
  }

  // ---------- the conditions of Valid, one block each ----------

  predicate HeadValid(t: Transcript) {
    |t.protocolID| == 32 && (exists i :: 0 <= i < 32 && t.protocolID[i] != 0) && 1 <= t.curve <= 2
  }

  predicate ChallengesValid(c: seq<Challenge>) {
    |c| == 3 && ValidChallenge(c[0]) && ValidChallenge(c[1]) && ValidChallenge(c[2]) && c[0].nonce != c[1].nonce &&
    c[0].nonce != c[2].nonce && c[1].nonce != c[2].nonce
  }

  predicate TailValid(t: Transcript) {
    IsField(t.pseudonym) && IsField(t.nullifier) && 1 <= t.observerClass <= 3
  }

  predicate Sized(t: Transcript) {
    |t.deviceID| == 32 && |t.publicKey| == 32 && |t.evidenceHash| == 32 && t.epoch < 0x1_0000_0000 &&
    t.time < 0x1_0000_0000_0000_0000
  }

  lemma ValidParts(t: Transcript, minimum: nat)
    ensures Valid(t, minimum) <==>
      HeadValid(t) && ChallengesValid(t.challenges) && ValidLocal(t.local, minimum) && TailValid(t) && Sized(t)
  {
  }

  lemma HeadIsGrammar(data: Bytes, n: nat)
    requires |data| == 591 + n
    ensures HeadGrammar(data, n) <==> HeadOk(HeadOf(data[..114])) && HeadValid(TranscriptAt(data, n))
  {
    HeadIsThere(data, n);
    SmallCount(data[110..114], 3);
    Nonzero(data[1..33]);
  }

  lemma ChallengeIsValid(data: Bytes, o: nat, c: Challenge)
    requires o + 111 <= |data| && ChallengeStandsAt(data, o, c)
    ensures ValidChallenge(c) <==> Rssi(data[o + 110])
  {
    Ranges();
    assert |data[o..o + 32]| == 32 && |data[o + 32..o + 96]| == 64;
    assert |data[o + 96..o + 104]| == 8 && |data[o + 104..o + 108]| == 4 && |data[o + 108..o + 110]| == 2;
  }

  lemma ChallengesAreGrammar(data: Bytes, n: nat)
    requires |data| == 591 + n
    ensures ChallengeGrammar(data, n) <==> ChallengesValid(TranscriptAt(data, n).challenges)
  {
    var c := TranscriptAt(data, n).challenges;
    ChallengeIsThere(data, 114);
    ChallengeIsThere(data, 225);
    ChallengeIsThere(data, 336);
    ChallengeIsValid(data, 114, c[0]);
    ChallengeIsValid(data, 225, c[1]);
    ChallengeIsValid(data, 336, c[2]);
  }

  lemma TailIsGrammar(data: Bytes, n: nat)
    requires |data| == 591 + n
    ensures TailGrammar(data, n) <==> TailValid(TranscriptAt(data, n))
  {
    TailIsThere(data, n);
  }

  lemma SizesAreRight(data: Bytes, n: nat)
    requires |data| == 591 + n
    ensures Sized(TranscriptAt(data, n))
  {
    Ranges();
    HeadIsThere(data, n);
    TailIsThere(data, n);
    assert |data[98..102]| == 4 && |data[102..110]| == 8;
  }

  lemma GeohashIsGrammar(data: Bytes, n: nat)
    requires |data| == 591 + n
    ensures ValidGeohash(data[447..453]) <==>
      data[447..453] == [0, 0, 0, 0, 0, 0] || forall i :: 447 <= i < 453 ==> Base32(data[i])
  {
    var s := data[447..453];
    assert forall i :: 0 <= i < 6 ==> s[i] == data[447 + i];
    forall i | 447 <= i < 453 ensures GeohashByte(data[i]) <==> Base32(data[i]) { LetterOfBase32(data[i]); }
    if forall i :: 0 <= i < 6 ==> GeohashByte(s[i]) {
      forall i | 447 <= i < 453 ensures Base32(data[i]) { assert s[i - 447] == data[i]; }
    }
    if forall i :: 0 <= i < 6 ==> s[i] == 0 { assert s == [0, 0, 0, 0, 0, 0]; }
  }

  lemma SamplesAreGrammar(data: Bytes, n: nat)
    requires |data| == 591 + n
    ensures var samples := TranscriptAt(data, n).local.samples;
      |samples| == n && ((forall i :: 0 <= i < n ==> -127 <= samples[i] <= 0) <==>
                         forall i :: 494 <= i < 494 + n ==> Rssi(data[i]))
  {
    LocalIsThere(data, n);
    var samples := TranscriptAt(data, n).local.samples;
    if forall i :: 0 <= i < n ==> -127 <= samples[i] <= 0 {
      forall i | 494 <= i < 494 + n ensures Rssi(data[i]) { assert samples[i - 494] == Signed(data[494 + (i - 494)]); }
    }
  }

  lemma LocalIsGrammar(data: Bytes, n: nat, minimum: nat)
    requires |data| == 591 + n && minimum <= n <= 20
    ensures LocalGrammar(data, n) <==>
      ValidLocal(TranscriptAt(data, n).local, minimum) && Little(data[490..494]) == n
  {
    Ranges();
    LocalIsThere(data, n);
    GeohashIsGrammar(data, n);
    SamplesAreGrammar(data, n);
    SmallCount(data[490..494], n);
  }

  lemma ValidIsGrammar(data: Bytes, n: nat, minimum: nat)
    requires |data| == 591 + n && minimum <= n <= 20
    ensures HeadGrammar(data, n) && ChallengeGrammar(data, n) && LocalGrammar(data, n) && TailGrammar(data, n) <==>
      HeadOk(HeadOf(data[..114])) && Valid(TranscriptAt(data, n), minimum) && Little(data[490..494]) == n
  {
    ValidParts(TranscriptAt(data, n), minimum);
    HeadIsGrammar(data, n);
    ChallengesAreGrammar(data, n);
    LocalIsGrammar(data, n, minimum);
    TailIsGrammar(data, n);
    SizesAreRight(data, n);
  }

  /** What Decode asks of data of a length in range. */
  predicate Accepts(data: Bytes, n: nat, minimum: nat)
    requires |data| == 591 + n
  {
    HeadOk(HeadOf(data[..114])) && Valid(TranscriptAt(data, n), minimum) && Little(data[490..494]) == n
  }

  lemma DecodeAsks(data: Bytes, n: nat, minimum: nat)
    requires minimum <= 5 && minimum <= n <= 20 && |data| == 591 + n
    ensures Decode(data, minimum).Some? <==> Accepts(data, n, minimum)
  {
    DecodeAt(data, minimum);
  }

  /** A byte string is accepted if and only if it has a length between 591 + minimum and 611 and its bytes
      follow the grammar. */
  lemma AcceptedIsGrammar(data: Bytes, minimum: nat)
    ensures Decode(data, minimum).Some? <==> Grammar(data, minimum)
  {
    if minimum <= 5 && 591 + minimum <= |data| <= 611 {
      var n := |data| - 591;
      DecodeAsks(data, n, minimum);
      ValidIsGrammar(data, n, minimum);
    }
  }
}
