/** OBS_TRANSCRIPT_V0: the fixed-order little-endian encoding of an observation transcript, its strict
    decoder and its structural validation. */
module Transcript {
  import opened Wrappers
  import opened ByteCodec

  const FIELD_MODULUS: nat := 21888242871839275222246405745257275088548364400416034343698204186575808495617
  const FIXED_LENGTH: nat := 591
  const MAX_SAMPLES: nat := 20
  const ENCODER_MINIMUM: nat := 5

  datatype Challenge = Challenge(nonce: Bytes, signature: Bytes, timestamp: nat, counter: nat,
                                 roundTrip: nat, rssi: int)
  datatype Local = Local(geohash6: Bytes, gpsAccuracy: nat, barometer: nat, motion: nat, wifi: Bytes,
                         samples: seq<int>)
  datatype Transcript = Transcript(protocolID: Bytes, deviceID: Bytes, publicKey: Bytes, curve: nat,
                                   epoch: nat, time: nat, challenges: seq<Challenge>, local: Local,
                                   evidenceHash: Bytes, pseudonym: Bytes, nullifier: Bytes, observerClass: nat)

  // ---------- validation ----------

  predicate IsField(s: Bytes) { |s| == 32 && Big(s) < FIELD_MODULUS }

  predicate ValidChallenge(c: Challenge) {
    |c.nonce| == 32 && |c.signature| == 64 && c.timestamp < 0x1_0000_0000_0000_0000 &&
    c.counter < 0x1_0000_0000 && c.roundTrip < 0x1_0000 && -127 <= c.rssi <= 0
  }

  /** One of 0-9, b-h, j, k, m, n, p-z. */
  predicate GeohashByte(b: Byte) {
    48 <= b <= 57 || 98 <= b <= 104 || 106 <= b <= 107 || 109 <= b <= 110 || 112 <= b <= 122
  }

  predicate ValidGeohash(s: Bytes) {
    |s| == 6 && ((forall i :: 0 <= i < 6 ==> s[i] == 0) || (forall i :: 0 <= i < 6 ==> GeohashByte(s[i])))
  }

  predicate ValidLocal(l: Local, minimum: nat) {
    ValidGeohash(l.geohash6) && |l.wifi| == 32 && l.gpsAccuracy < 0x1_0000 && l.barometer < 0x1_0000 &&
    l.motion <= 3 && minimum <= |l.samples| <= MAX_SAMPLES &&
    forall i :: 0 <= i < |l.samples| ==> -127 <= l.samples[i] <= 0
  }

  predicate Valid(t: Transcript, minimum: nat) {
    && |t.protocolID| == 32 && |t.deviceID| == 32 && |t.publicKey| == 32 && |t.evidenceHash| == 32
    && (exists i :: 0 <= i < 32 && t.protocolID[i] != 0)
    && IsField(t.pseudonym) && IsField(t.nullifier)
    && 1 <= t.curve <= 2 && 1 <= t.observerClass <= 3
    && t.epoch < 0x1_0000_0000 && t.time < 0x1_0000_0000_0000_0000
    && |t.challenges| == 3 && (forall i :: 0 <= i < 3 ==> ValidChallenge(t.challenges[i]))
    && t.challenges[0].nonce != t.challenges[1].nonce && t.challenges[0].nonce != t.challenges[2].nonce
    && t.challenges[1].nonce != t.challenges[2].nonce
    && ValidLocal(t.local, minimum)
  }

  // ---------- the layout ----------

  /** Two's complement in one byte. */
  function ToByte(x: int): Byte
    requires -128 <= x < 128
  { if x < 0 then x + 256 else x }

  function FromByte(b: Byte): int { if b >= 128 then b - 256 else b }

  function HeadSizes(): seq<nat> { [1, 32, 32, 32, 1, 4, 8, 4] }
  function ChallengeSizes(): seq<nat> { [32, 64, 8, 4, 2, 1] }
  function LocalSizes(): seq<nat> { [6, 2, 2, 1, 32, 4] }
  function TailSizes(): seq<nat> { [32, 32, 32, 1] }

  /** Head, three challenges, local signals, n samples, tail. */
  function BlockSizes(n: nat): seq<nat> { [114, 111, 111, 111, 47, n, 97] }

  function Concat(fs: seq<Bytes>): Bytes {
    if fs == [] then [] else fs[0] + Concat(fs[1..])
  }

  function Total(sizes: seq<nat>): nat {
    if sizes == [] then 0 else sizes[0] + Total(sizes[1..])
  }

  /** Cut data into fields of the given widths. */
  function Chop(data: Bytes, sizes: seq<nat>): (fs: seq<Bytes>)
    requires |data| == Total(sizes)
    ensures |fs| == |sizes| && forall i :: 0 <= i < |fs| ==> |fs[i]| == sizes[i]
  {
    if sizes == [] then [] else [data[..sizes[0]]] + Chop(data[sizes[0]..], sizes[1..])
  }

  ghost predicate Fits(fs: seq<Bytes>, sizes: seq<nat>) {
    |fs| == |sizes| && forall i :: 0 <= i < |fs| ==> |fs[i]| == sizes[i]
  }

  lemma {:induction false} ConcatOfChop(data: Bytes, sizes: seq<nat>)
    requires |data| == Total(sizes)
    ensures Concat(Chop(data, sizes)) == data
  {
    if sizes != [] {
      ConcatOfChop(data[sizes[0]..], sizes[1..]);
      assert Chop(data, sizes)[1..] == Chop(data[sizes[0]..], sizes[1..]);
    }
  }

  lemma {:induction false} ChopOfConcat(fs: seq<Bytes>, sizes: seq<nat>)
    requires Fits(fs, sizes)
    ensures |Concat(fs)| == Total(sizes) && Chop(Concat(fs), sizes) == fs
  {
    if fs != [] {
      var data, rest := Concat(fs), Concat(fs[1..]);
      ChopOfConcat(fs[1..], sizes[1..]);
      assert data == fs[0] + rest && |data| == sizes[0] + |rest|;
      assert data[sizes[0]..] == rest && data[..sizes[0]] == fs[0];
      assert Chop(data, sizes) == [fs[0]] + fs[1..];
      assert [fs[0]] + fs[1..] == fs;
    }
  }

  lemma {:induction false} TotalAppend(a: seq<nat>, b: seq<nat>)
    ensures Total(a + b) == Total(a) + Total(b)
  {
    if a == [] {
      assert a + b == b;
    } else {
      TotalAppend(a[1..], b);
      assert (a + b)[0] == a[0] && (a + b)[1..] == a[1..] + b;
      assert Total(a + b) == (a + b)[0] + Total((a + b)[1..]);
    }
  }

  lemma TotalCons(a: nat, rest: seq<nat>)
    ensures Total([a] + rest) == a + Total(rest)
  {
    assert ([a] + rest)[1..] == rest;
  }

  lemma Total4(a: nat, b: nat, c: nat, d: nat, rest: seq<nat>)
    ensures Total([a, b, c, d] + rest) == a + b + c + d + Total(rest)
  {
    TotalCons(d, rest);
    TotalCons(c, [d] + rest);
    TotalCons(b, [c] + ([d] + rest));
    TotalCons(a, [b] + ([c] + ([d] + rest)));
    assert [a, b, c, d] + rest == [a] + ([b] + ([c] + ([d] + rest)));
  }

  lemma Total2(a: nat, b: nat)
    ensures Total([a, b]) == a + b
  {
    TotalCons(b, []);
    TotalCons(a, [b]);
    assert [b] + [] == [b] && [a] + [b] == [a, b];
  }

  lemma HeadTotal()
    ensures Total(HeadSizes()) == 114
  {
    Total4(1, 32, 32, 32, [1, 4, 8, 4]);
    Total4(1, 4, 8, 4, []);
    assert HeadSizes() == [1, 32, 32, 32] + [1, 4, 8, 4] && [1, 4, 8, 4] + [] == [1, 4, 8, 4];
  }

  lemma ChallengeTotal()
    ensures Total(ChallengeSizes()) == 111
  {
    Total4(32, 64, 8, 4, [2, 1]);
    Total2(2, 1);
    assert ChallengeSizes() == [32, 64, 8, 4] + [2, 1];
  }

  lemma LocalTotal()
    ensures Total(LocalSizes()) == 47
  {
    Total4(6, 2, 2, 1, [32, 4]);
    Total2(32, 4);
    assert LocalSizes() == [6, 2, 2, 1] + [32, 4];
  }

  lemma Totals(n: nat)
    ensures Total(HeadSizes()) == 114 && Total(ChallengeSizes()) == 111
    ensures Total(LocalSizes()) == 47 && Total(TailSizes()) == 97
    ensures Total(BlockSizes(n)) == FIXED_LENGTH + n
  {
    HeadTotal();
    ChallengeTotal();
    LocalTotal();
    Total4(32, 32, 32, 1, []);
    assert TailSizes() + [] == TailSizes();
    Total4(114, 111, 111, 111, [47, n, 97]);
    assert BlockSizes(n) == [114, 111, 111, 111] + [47, n, 97];
    TotalCons(47, [n, 97]);
    assert [47] + [n, 97] == [47, n, 97];
    Total2(n, 97);
  }

  // ---------- blocks ----------

  function HeadFields(t: Transcript): (fs: seq<Bytes>) {
    [[0], t.protocolID, t.deviceID, t.publicKey, ToLittle(t.curve, 1), ToLittle(t.epoch, 4),
     ToLittle(t.time, 8), ToLittle(|t.challenges|, 4)]
  }

  function ChallengeFields(c: Challenge): (fs: seq<Bytes>)
    requires ValidChallenge(c)
  {
    [c.nonce, c.signature, ToLittle(c.timestamp, 8), ToLittle(c.counter, 4), ToLittle(c.roundTrip, 2), [ToByte(c.rssi)]]
  }

  function LocalFields(l: Local): (fs: seq<Bytes>) {
    [l.geohash6, ToLittle(l.gpsAccuracy, 2), ToLittle(l.barometer, 2), ToLittle(l.motion, 1), l.wifi,
     ToLittle(|l.samples|, 4)]
  }

  function TailFields(t: Transcript): (fs: seq<Bytes>) {
    [t.evidenceHash, t.pseudonym, t.nullifier, ToLittle(t.observerClass, 1)]
  }

  function SampleBytes(samples: seq<int>): (s: Bytes)
    requires forall i :: 0 <= i < |samples| ==> -127 <= samples[i] <= 0
  {
    seq(|samples|, i requires 0 <= i < |samples| => ToByte(samples[i]))
  }

  function SampleValues(s: Bytes): seq<int> {
    seq(|s|, i requires 0 <= i < |s| => FromByte(s[i]))
  }

  function Blocks(t: Transcript): seq<Bytes>
    requires Valid(t, 0)
  {
    [Concat(HeadFields(t)), Concat(ChallengeFields(t.challenges[0])), Concat(ChallengeFields(t.challenges[1])),
     Concat(ChallengeFields(t.challenges[2])), Concat(LocalFields(t.local)), SampleBytes(t.local.samples),
     Concat(TailFields(t))]
  }

  /** The bytes of a structurally valid transcript, whatever its number of samples. */
  function Encoding(t: Transcript): Bytes
    requires Valid(t, 0)
  {
    Concat(Blocks(t))
  }

  /** The public encoder insists on five samples. */
  function Encode(t: Transcript): Option<Bytes> {
    if Valid(t, ENCODER_MINIMUM) then Some(Encoding(t)) else None
  }

  function ChallengeOf(b: Bytes): (fs: seq<Bytes>)
    requires |b| == 111
    ensures |fs| == 6 && |fs[2]| == 8 && |fs[3]| == 4 && |fs[4]| == 2 && |fs[5]| == 1
  {
    Totals(0);
    Chop(b, ChallengeSizes())
  }

  function ReadChallenge(b: Bytes): Challenge
    requires |b| == 111
  {
    var fs := ChallengeOf(b);
    Challenge(fs[0], fs[1], Little(fs[2]), Little(fs[3]), Little(fs[4]), FromByte(fs[5][0]))
  }

  function LocalOf(b: Bytes): (fs: seq<Bytes>)
    requires |b| == 47
    ensures |fs| == 6
  {
    Totals(0);
    Chop(b, LocalSizes())
  }

  function ReadLocal(b: Bytes, samples: Bytes): Local
    requires |b| == 47
  {
    var fs := LocalOf(b);
    Local(fs[0], Little(fs[1]), Little(fs[2]), Little(fs[3]), fs[4], SampleValues(samples))
  }

  /** The version and the number of challenges are right. */
  predicate HeadOk(h: seq<Bytes>)
    requires |h| == 8
  { h[0] == [0] && Little(h[7]) == 3 }

  function Assemble(h: seq<Bytes>, challenges: seq<Challenge>, local: Local, e: seq<Bytes>): Transcript
    requires |h| == 8 && |e| == 4
  {
    Transcript(h[1], h[2], h[3], Little(h[4]), Little(h[5]), Little(h[6]), challenges, local, e[0], e[1], e[2],
               Little(e[3]))
  }

  function HeadOf(b: Bytes): (h: seq<Bytes>)
    requires |b| == 114
    ensures |h| == 8
  {
    Totals(0);
    Chop(b, HeadSizes())
  }

  function TailOf(b: Bytes): (e: seq<Bytes>)
    requires |b| == 97
    ensures |e| == 4
  {
    Totals(0);
    Chop(b, TailSizes())
  }

  /** The transcript of seven blocks, and whether the head is right. */
  function ReadBlocks(bs: seq<Bytes>, n: nat): (Transcript, bool)
    requires Fits(bs, BlockSizes(n))
  {
    assert |bs[0]| == 114 && |bs[1]| == 111 && |bs[2]| == 111 && |bs[3]| == 111 && |bs[4]| == 47 && |bs[6]| == 97;
    (Assemble(HeadOf(bs[0]), [ReadChallenge(bs[1]), ReadChallenge(bs[2]), ReadChallenge(bs[3])],
              ReadLocal(bs[4], bs[5]), TailOf(bs[6])),
     HeadOk(HeadOf(bs[0])))
  }

  function Decode(data: Bytes, minimum: nat): Option<Transcript> {
    if minimum > ENCODER_MINIMUM || |data| < FIXED_LENGTH + minimum || |data| > FIXED_LENGTH + MAX_SAMPLES then None
    else
      var n := Little(data[490..494]);
      if n < minimum || n > MAX_SAMPLES || |data| != FIXED_LENGTH + n then None
      else
        TotalBlocks(n);
        var r := ReadBlocks(Chop(data, BlockSizes(n)), n);
        if !r.1 || !Valid(r.0, minimum) then None else Some(r.0)
  }

  // ---------- the two directions, block by block ----------

  lemma Ranges()
    ensures Pow256(1) == 0x100 && Pow256(2) == 0x1_0000 && Pow256(4) == 0x1_0000_0000
    ensures Pow256(8) == 0x1_0000_0000_0000_0000
  {
    assert Pow256(4) == 256 * (256 * Pow256(2));
    assert Pow256(6) == 256 * (256 * Pow256(4));
    assert Pow256(8) == 256 * (256 * Pow256(6));
  }

  lemma ChallengeFits(c: Challenge)
    requires ValidChallenge(c)
    ensures Fits(ChallengeFields(c), ChallengeSizes())
  {
  }

  lemma LocalFits(l: Local)
    requires |l.geohash6| == 6 && |l.wifi| == 32
    ensures Fits(LocalFields(l), LocalSizes())
  {
  }

  lemma TailFits(t: Transcript)
    requires |t.evidenceHash| == 32 && |t.pseudonym| == 32 && |t.nullifier| == 32
    ensures Fits(TailFields(t), TailSizes())
  {
  }

  lemma ChallengeRound(c: Challenge)
    requires ValidChallenge(c)
    ensures var b := Concat(ChallengeFields(c)); |b| == 111 && ReadChallenge(b) == c
  {
    Totals(0);
    ChallengeFits(c);
    ChopOfConcat(ChallengeFields(c), ChallengeSizes());
    Ranges();
    LittleOfToLittle(c.timestamp, 8);
    LittleOfToLittle(c.counter, 4);
    LittleOfToLittle(c.roundTrip, 2);
  }

  lemma ChallengeParts(b: Bytes)
    requires |b| == 111
    ensures Concat(ChallengeOf(b)) == b
  {
    Totals(0);
    ConcatOfChop(b, ChallengeSizes());
  }

  lemma ChallengeBack(b: Bytes, c: Challenge)
    requires |b| == 111 && c == ReadChallenge(b) && ValidChallenge(c)
    ensures Concat(ChallengeFields(c)) == b
  {
    var fs := ChallengeOf(b);
    ToLittleOfLittle(fs[2]);
    ToLittleOfLittle(fs[3]);
    ToLittleOfLittle(fs[4]);
    assert fs[5] == [fs[5][0]];
    SameFields6(ChallengeFields(c), fs);
    ChallengeParts(b);
  }

  lemma SameFields6(a: seq<Bytes>, b: seq<Bytes>)
    requires |a| == |b| == 6 && a[0] == b[0] && a[1] == b[1] && a[2] == b[2] && a[3] == b[3] && a[4] == b[4]
    requires a[5] == b[5]
    ensures a == b
  {
  }

  lemma SamplesRound(samples: seq<int>)
    requires forall i :: 0 <= i < |samples| ==> -127 <= samples[i] <= 0
    ensures SampleValues(SampleBytes(samples)) == samples
  {
  }

  lemma SamplesBack(s: Bytes)
    requires forall i :: 0 <= i < |s| ==> -127 <= SampleValues(s)[i] <= 0
    ensures SampleBytes(SampleValues(s)) == s
  {
  }

  lemma LocalRound(l: Local)
    requires ValidLocal(l, 0)
    ensures var b := Concat(LocalFields(l));
      |b| == 47 && ReadLocal(b, SampleBytes(l.samples)) == l && Chop(b, LocalSizes())[5] == ToLittle(|l.samples|, 4)
  {
    Totals(0);
    LocalFits(l);
    ChopOfConcat(LocalFields(l), LocalSizes());
    Ranges();
    LittleOfToLittle(l.gpsAccuracy, 2);
    LittleOfToLittle(l.barometer, 2);
    LittleOfToLittle(l.motion, 1);
    SamplesRound(l.samples);
  }

  lemma LocalBack(b: Bytes, samples: Bytes)
    requires |b| == 47 && ValidLocal(ReadLocal(b, samples), 0)
    requires Total(LocalSizes()) == 47 && Little(Chop(b, LocalSizes())[5]) == |samples|
    ensures Concat(LocalFields(ReadLocal(b, samples))) == b && SampleBytes(ReadLocal(b, samples).samples) == samples
  {
    var fs := Chop(b, LocalSizes());
    ToLittleOfLittle(fs[1]);
    ToLittleOfLittle(fs[2]);
    ToLittleOfLittle(fs[3]);
    ToLittleOfLittle(fs[5]);
    SamplesBack(samples);
    SameFields6(LocalFields(ReadLocal(b, samples)), fs);
    ConcatOfChop(b, LocalSizes());
  }

  lemma HeadFits(t: Transcript)
    requires |t.protocolID| == 32 && |t.deviceID| == 32 && |t.publicKey| == 32
    ensures Fits(HeadFields(t), HeadSizes())
  {
  }

  lemma HeadRound(t: Transcript)
    requires Valid(t, 0)
    ensures |Concat(HeadFields(t))| == 114 == Total(HeadSizes())
    ensures var h := Chop(Concat(HeadFields(t)), HeadSizes());
      h == HeadFields(t) && Little(h[4]) == t.curve && Little(h[5]) == t.epoch && Little(h[6]) == t.time &&
      Little(h[7]) == 3
  {
    Totals(0);
    HeadFits(t);
    ChopOfConcat(HeadFields(t), HeadSizes());
    Ranges();
    LittleOfToLittle(t.curve, 1);
    LittleOfToLittle(t.epoch, 4);
    LittleOfToLittle(t.time, 8);
    LittleOfToLittle(3, 4);
  }

  lemma TailRound(t: Transcript)
    requires Valid(t, 0)
    ensures |Concat(TailFields(t))| == 97 == Total(TailSizes())
    ensures var e := Chop(Concat(TailFields(t)), TailSizes()); e == TailFields(t) && Little(e[3]) == t.observerClass
  {
    Totals(0);
    TailFits(t);
    ChopOfConcat(TailFields(t), TailSizes());
    Ranges();
    LittleOfToLittle(t.observerClass, 1);
  }

  lemma EndsFit(t: Transcript)
    requires Valid(t, 0)
    ensures |Blocks(t)[0]| == 114 && |Blocks(t)[6]| == 97
  {
    HeadRound(t);
    TailRound(t);
  }

  lemma ChallengesFit(t: Transcript)
    requires Valid(t, 0)
    ensures |Blocks(t)[1]| == 111 && |Blocks(t)[2]| == 111 && |Blocks(t)[3]| == 111
  {
    ChallengeRound(t.challenges[0]);
    ChallengeRound(t.challenges[1]);
    ChallengeRound(t.challenges[2]);
  }

  lemma SignalsFit(t: Transcript)
    requires Valid(t, 0)
    ensures |Blocks(t)[4]| == 47 && |Blocks(t)[5]| == |t.local.samples|
  {
    LocalRound(t.local);
  }

  lemma BlocksFit(t: Transcript)
    requires Valid(t, 0)
    ensures Fits(Blocks(t), BlockSizes(|t.local.samples|))
  {
    EndsFit(t);
    ChallengesFit(t);
    SignalsFit(t);
  }

  lemma BlocksRound(t: Transcript)
    requires Valid(t, 0)
    ensures Fits(Blocks(t), BlockSizes(|t.local.samples|))
    ensures ReadBlocks(Blocks(t), |t.local.samples|) == (t, true)
  {
    var bs, n := Blocks(t), |t.local.samples|;
    BlocksFit(t);
    BlockParts(bs, n);
    var r := ReadBlocks(bs, n);
    assert r.0.challenges == t.challenges by {
      ChallengeRound(t.challenges[0]);
      ChallengeRound(t.challenges[1]);
      ChallengeRound(t.challenges[2]);
    }
    assert r.0.local == t.local by { LocalRound(t.local); }
    HeadRound(t);
    TailRound(t);
  }

  lemma HeadBack(b: Bytes, t: Transcript)
    requires |b| == 114 == Total(HeadSizes())
    requires var h := Chop(b, HeadSizes());
      h[0] == [0] && t.protocolID == h[1] && t.deviceID == h[2] && t.publicKey == h[3] && t.curve == Little(h[4]) &&
      t.epoch == Little(h[5]) && t.time == Little(h[6]) && |t.challenges| == Little(h[7])
    ensures Concat(HeadFields(t)) == b
  {
    var h := Chop(b, HeadSizes());
    ToLittleOfLittle(h[4]);
    ToLittleOfLittle(h[5]);
    ToLittleOfLittle(h[6]);
    ToLittleOfLittle(h[7]);
    assert HeadFields(t) == h;
    ConcatOfChop(b, HeadSizes());
  }

  lemma TailBack(b: Bytes, t: Transcript)
    requires |b| == 97 == Total(TailSizes())
    requires var e := Chop(b, TailSizes());
      t.evidenceHash == e[0] && t.pseudonym == e[1] && t.nullifier == e[2] && t.observerClass == Little(e[3])
    ensures Concat(TailFields(t)) == b
  {
    var e := Chop(b, TailSizes());
    ToLittleOfLittle(e[3]);
    assert TailFields(t) == e;
    ConcatOfChop(b, TailSizes());
  }

  lemma BlockParts(bs: seq<Bytes>, n: nat)
    requires Fits(bs, BlockSizes(n))
    ensures |bs| == 7 && |bs[0]| == 114 && |bs[1]| == 111 && |bs[2]| == 111 && |bs[3]| == 111 && |bs[4]| == 47
    ensures |bs[5]| == n && |bs[6]| == 97
    ensures var t := ReadBlocks(bs, n).0;
      t.challenges == [ReadChallenge(bs[1]), ReadChallenge(bs[2]), ReadChallenge(bs[3])] &&
      t.local == ReadLocal(bs[4], bs[5])
  {
    var sizes := BlockSizes(n);
    assert |bs[0]| == sizes[0] && |bs[1]| == sizes[1] && |bs[2]| == sizes[2] && |bs[3]| == sizes[3];
    assert |bs[4]| == sizes[4] && |bs[5]| == sizes[5] && |bs[6]| == sizes[6];
  }

  lemma EndsBack(bs: seq<Bytes>, n: nat, t: Transcript)
    requires Fits(bs, BlockSizes(n)) && ReadBlocks(bs, n) == (t, true)
    ensures Concat(HeadFields(t)) == bs[0] && Concat(TailFields(t)) == bs[6]
  {
    BlockParts(bs, n);
    Totals(n);
    HeadBack(bs[0], t);
    TailBack(bs[6], t);
  }

  lemma MiddleBack(bs: seq<Bytes>, t: Transcript)
    requires |bs| == 7 && |bs[1]| == 111 && |bs[2]| == 111 && |bs[3]| == 111 && |bs[4]| == 47
    requires Total(LocalSizes()) == 47 && Little(Chop(bs[4], LocalSizes())[5]) == |bs[5]|
    requires t.challenges == [ReadChallenge(bs[1]), ReadChallenge(bs[2]), ReadChallenge(bs[3])]
    requires t.local == ReadLocal(bs[4], bs[5]) && ValidLocal(t.local, 0)
    requires forall i :: 0 <= i < 3 ==> ValidChallenge(t.challenges[i])
    ensures Concat(ChallengeFields(t.challenges[0])) == bs[1] && Concat(ChallengeFields(t.challenges[1])) == bs[2]
    ensures Concat(ChallengeFields(t.challenges[2])) == bs[3]
    ensures Concat(LocalFields(t.local)) == bs[4] && SampleBytes(t.local.samples) == bs[5]
  {
    ChallengeBack(bs[1], t.challenges[0]);
    ChallengeBack(bs[2], t.challenges[1]);
    ChallengeBack(bs[3], t.challenges[2]);
    LocalBack(bs[4], bs[5]);
  }

  lemma BlocksBack(bs: seq<Bytes>, n: nat)
    requires Fits(bs, BlockSizes(n)) && |bs[4]| == 47 == Total(LocalSizes()) && |bs[5]| == n
    requires Little(Chop(bs[4], LocalSizes())[5]) == n
    requires ReadBlocks(bs, n).1 && Valid(ReadBlocks(bs, n).0, 0)
    ensures Blocks(ReadBlocks(bs, n).0) == bs
  {
    var t := ReadBlocks(bs, n).0;
    BlockParts(bs, n);
    EndsBack(bs, n, t);
    MiddleBack(bs, t);
  }

  lemma {:induction false} ChopAt(data: Bytes, sizes: seq<nat>, k: nat)
    requires |data| == Total(sizes) && k < |sizes|
    ensures Total(sizes[..k]) + sizes[k] <= |data|
    ensures Chop(data, sizes)[k] == data[Total(sizes[..k])..Total(sizes[..k]) + sizes[k]]
  {
    if k == 0 {
      assert sizes[..0] == [];
    } else {
      var rest, o := data[sizes[0]..], Total(sizes[1..][..k - 1]);
      ChopAt(rest, sizes[1..], k - 1);
      assert sizes[..k][0] == sizes[0] && sizes[..k][1..] == sizes[1..][..k - 1];
      assert Total(sizes[..k]) == sizes[0] + o;
      assert rest[o..o + sizes[k]] == data[sizes[0] + o..sizes[0] + o + sizes[k]];
    }
  }

  /** The sample count is the last field of the local block. */
  lemma LastLocalField(b: Bytes)
    requires |b| == 47
    ensures Total(LocalSizes()) == 47 && LocalOf(b) == Chop(b, LocalSizes()) && LocalOf(b)[5] == b[43..47]
  {
    Totals(0);
    CountOffset();
    ChopAt(b, LocalSizes(), 5);
  }

  lemma CountOffset()
    ensures Total(LocalSizes()[..5]) == 43
  {
    var s := LocalSizes();
    assert s[..0] == [];
    TotalNext(s, 0); TotalNext(s, 1); TotalNext(s, 2); TotalNext(s, 3); TotalNext(s, 4);
  }

  /** It stands behind 490 bytes. */
  lemma CountField(data: Bytes, n: nat)
    requires |data| == FIXED_LENGTH + n
    ensures |data| == Total(BlockSizes(n)) && Total(LocalSizes()) == 47
    ensures var bs := Chop(data, BlockSizes(n));
      |bs[4]| == 47 && |bs[5]| == n && Chop(bs[4], LocalSizes())[5] == data[490..494]
  {
    BackBlocksAt(data, n);
    LastLocalField(data[447..494]);
    assert data[447..494][43..47] == data[490..494];
  }

  lemma ValidMinimum(t: Transcript, m: nat, k: nat)
    requires Valid(t, m) && k <= |t.local.samples|
    ensures Valid(t, k)
  {
  }

  // ---------- main results ----------

  /** Decoding inverts encoding, and an encoding has 591 bytes plus one per sample. */
  lemma DecodeInvertsEncode(t: Transcript, minimum: nat)
    requires Valid(t, 0) && minimum <= |t.local.samples| && minimum <= ENCODER_MINIMUM
    ensures |Encoding(t)| == FIXED_LENGTH + |t.local.samples|
    ensures Decode(Encoding(t), minimum) == Some(t)
  {
    var n, data := |t.local.samples|, Encoding(t);
    BlocksRound(t);
    ChopOfConcat(Blocks(t), BlockSizes(n));
    Totals(n);
    CountField(data, n);
    LocalRound(t.local);
    Ranges();
    LittleOfToLittle(n, 4);
    ValidMinimum(t, 0, minimum);
  }

  /** Whatever is accepted is valid and is exactly the encoding of what was returned. */
  lemma AcceptedIsCanonical(data: Bytes, minimum: nat)
    requires Decode(data, minimum).Some?
    ensures var t := Decode(data, minimum).value;
      Valid(t, minimum) && Valid(t, 0) && Encoding(t) == data && |data| == FIXED_LENGTH + |t.local.samples|
  {
    var n := Little(data[490..494]);
    var t := Decode(data, minimum).value;
    CountField(data, n);
    ValidMinimum(t, minimum, 0);
    BlocksBack(Chop(data, BlockSizes(n)), n);
    ConcatOfChop(data, BlockSizes(n));
  }

  /** Intake decodes with no minimum and hashes the raw bytes; confidence hashes the re-encoding. They
      agree on every transcript that policy can commit, and the encoder refuses exactly the others. */
  lemma IntakeBytesAreReencoded(data: Bytes)
    requires Decode(data, 0).Some?
    ensures var t := Decode(data, 0).value;
      Encode(t) == (if |t.local.samples| >= ENCODER_MINIMUM then Some(data) else None)
  {
    AcceptedIsCanonical(data, 0);
    var t := Decode(data, 0).value;
    if |t.local.samples| >= ENCODER_MINIMUM { ValidMinimum(t, 0, ENCODER_MINIMUM); }
  }

  // ---------- the decoder's cursor ----------

  /** Little-endian bytes to a number, most significant byte first. */
  method Number(b: Bytes) returns (n: nat)
    ensures n == Little(b)
  {
    n := 0;
    var i: nat := |b|;
    assert b[i..] == [];
    while i > 0
      invariant i <= |b| && n == Little(b[i..])
    {
      i := i - 1;
      assert b[i..][1..] == b[i + 1..];
      n := n * 256 + b[i];
    }
    assert b[0..] == b;
  }

  class Reader {
    const data: Bytes
    var offset: nat

    ghost predicate Valid() reads this { offset <= |data| }

    constructor (data: Bytes)
      ensures Valid() && this.data == data && offset == 0
    {
      this.data := data;
      offset := 0;
    }

    method Raw(size: nat) returns (r: Option<Bytes>)
      requires Valid()
      modifies this
      ensures Valid()
      ensures if size > |data| - old(offset) then r.None?
              else r == Some(data[old(offset)..old(offset) + size]) && offset == old(offset) + size
    {
      if size > |data| - offset { return None; }
      r := Some(data[offset..offset + size]);
      offset := offset + size;
    }

    /** Reads of the given widths, one after the other. */
    method Fields(sizes: seq<nat>) returns (r: Option<seq<Bytes>>)
      requires Valid()
      modifies this
      ensures Valid()
      ensures if Total(sizes) > |data| - old(offset) then r.None?
              else offset == old(offset) + Total(sizes) &&
                   r == Some(Chop(data[old(offset)..old(offset) + Total(sizes)], sizes))
    {
      ghost var start := offset;
      var fs: seq<Bytes> := [];
      for k := 0 to |sizes|
        invariant offset == start + Total(sizes[..k]) <= |data| && Fits(fs, sizes[..k])
        invariant Concat(fs) == data[start..offset]
      {
        TotalNext(sizes, k);
        TotalSplit(sizes, k + 1);
        var f := Raw(sizes[k]);
        if f.None? { return None; }
        FieldNext(data, start, sizes, k, fs, f.value);
        fs := fs + [f.value];
      }
      assert sizes[..|sizes|] == sizes;
      ChopOfConcat(fs, sizes);
      return Some(fs);
    }

    /** One signed byte per sample. */
    method Samples(count: nat) returns (r: Option<seq<int>>)
      requires Valid()
      modifies this
      ensures Valid()
      ensures if count > |data| - old(offset) then r.None?
              else offset == old(offset) + count && r == Some(SampleValues(data[old(offset)..old(offset) + count]))
    {
      ghost var start := offset;
      var samples: seq<int> := [];
      for k := 0 to count
        invariant offset == start + k <= |data| && samples == SampleValues(data[start..start + k])
      {
        var b := Raw(1);
        if b.None? { return None; }
        samples := samples + [FromByte(b.value[0])];
      }
      return Some(samples);
    }

    method ReadOneChallenge() returns (c: Option<Challenge>)
      requires Valid()
      modifies this
      ensures Valid()
      ensures if 111 > |data| - old(offset) then c.None?
              else offset == old(offset) + 111 && c == Some(ReadChallenge(data[old(offset)..old(offset) + 111]))
    {
      Totals(0);
      var f := Fields(ChallengeSizes());
      if f.None? { return None; }
      var fs := f.value;
      var time := Number(fs[2]);
      var counter := Number(fs[3]);
      var trip := Number(fs[4]);
      return Some(Challenge(fs[0], fs[1], time, counter, trip, FromByte(fs[5][0])));
    }

    method ReadThree() returns (challenges: seq<Challenge>)
      requires Valid() && offset == 114 && |data| >= 447
      modifies this
      ensures Valid() && offset == 447 && challenges == ThreeAt(data)
    {
      challenges := [];
      for k := 0 to 3
        invariant Valid() && offset == 114 + 111 * k && |challenges| == k
        invariant k > 0 ==> challenges[0] == ReadChallenge(data[114..225])
        invariant k > 1 ==> challenges[1] == ReadChallenge(data[225..336])
        invariant k > 2 ==> challenges[2] == ReadChallenge(data[336..447])
      {
        var c := ReadOneChallenge();
        challenges := challenges + [c.value];
      }
      assert challenges == [challenges[0], challenges[1], challenges[2]];
    }
  }

  lemma TotalNext(sizes: seq<nat>, k: nat)
    requires k < |sizes|
    ensures Total(sizes[..k + 1]) == Total(sizes[..k]) + sizes[k]
  {
    assert sizes[..k + 1] == sizes[..k] + [sizes[k]];
    TotalAppend(sizes[..k], [sizes[k]]);
    assert [sizes[k]][1..] == [];
  }

  lemma TotalSplit(sizes: seq<nat>, k: nat)
    requires k <= |sizes|
    ensures Total(sizes[..k]) <= Total(sizes)
  {
    TotalAppend(sizes[..k], sizes[k..]);
    assert sizes[..k] + sizes[k..] == sizes;
  }

  /** One more field behind those read from `start` on. */
  lemma FieldNext(data: Bytes, start: nat, sizes: seq<nat>, k: nat, fs: seq<Bytes>, f: Bytes)
    requires k < |sizes| && Fits(fs, sizes[..k])
    requires start + Total(sizes[..k]) + sizes[k] <= |data| && Concat(fs) == data[start..start + Total(sizes[..k])]
    requires f == data[start + Total(sizes[..k])..start + Total(sizes[..k]) + sizes[k]]
    ensures Fits(fs + [f], sizes[..k + 1])
    ensures Concat(fs + [f]) == data[start..start + Total(sizes[..k]) + sizes[k]]
  {
    assert sizes[..k + 1] == sizes[..k] + [sizes[k]];
    ConcatNext(fs, f);
  }

  lemma {:induction false} ConcatNext(fs: seq<Bytes>, f: Bytes)
    ensures Concat(fs + [f]) == Concat(fs) + f
  {
    if fs == [] {
      assert [f][1..] == [];
    } else {
      ConcatNext(fs[1..], f);
      assert (fs + [f])[1..] == fs[1..] + [f];
    }
  }

  /** Where the seven blocks begin. */
  lemma Offsets(n: nat)
    ensures var s := BlockSizes(n);
      Total(s[..0]) == 0 && Total(s[..1]) == 114 && Total(s[..2]) == 225 && Total(s[..3]) == 336 &&
      Total(s[..4]) == 447 && Total(s[..5]) == 494 && Total(s[..6]) == 494 + n
  {
    var s := BlockSizes(n);
    assert s[..0] == [];
    TotalNext(s, 0); TotalNext(s, 1); TotalNext(s, 2); TotalNext(s, 3); TotalNext(s, 4); TotalNext(s, 5);
  }

  lemma BlockAt(data: Bytes, n: nat, k: nat, start: nat)
    requires |data| == FIXED_LENGTH + n && k < 7 && start == Total(BlockSizes(n)[..k])
    ensures |data| == Total(BlockSizes(n)) && start + BlockSizes(n)[k] <= |data|
    ensures Chop(data, BlockSizes(n))[k] == data[start..start + BlockSizes(n)[k]]
  {
    TotalBlocks(n);
    ChopAt(data, BlockSizes(n), k);
  }

  lemma TotalBlocks(n: nat)
    ensures Total(BlockSizes(n)) == FIXED_LENGTH + n
  {
    Totals(n);
  }

  function ThreeAt(data: Bytes): seq<Challenge>
    requires |data| >= 447
  {
    [ReadChallenge(data[114..225]), ReadChallenge(data[225..336]), ReadChallenge(data[336..447])]
  }

  /** The transcript at its fixed offsets. */
  function TranscriptAt(data: Bytes, n: nat): Transcript
    requires |data| == FIXED_LENGTH + n
  {
    Assemble(HeadOf(data[..114]), ThreeAt(data), ReadLocal(data[447..494], data[494..494 + n]), TailOf(data[494 + n..]))
  }

  lemma FrontBlocksAt(data: Bytes, n: nat)
    requires |data| == FIXED_LENGTH + n
    ensures |data| == Total(BlockSizes(n))
    ensures var bs := Chop(data, BlockSizes(n));
      bs[0] == data[..114] && bs[1] == data[114..225] && bs[2] == data[225..336] && bs[3] == data[336..447]
  {
    Offsets(n);
    BlockAt(data, n, 0, 0);
    BlockAt(data, n, 1, 114);
    BlockAt(data, n, 2, 225);
    BlockAt(data, n, 3, 336);
  }

  lemma BackBlocksAt(data: Bytes, n: nat)
    requires |data| == FIXED_LENGTH + n
    ensures |data| == Total(BlockSizes(n))
    ensures var bs := Chop(data, BlockSizes(n));
      bs[4] == data[447..494] && bs[5] == data[494..494 + n] && bs[6] == data[494 + n..]
  {
    Offsets(n);
    BlockAt(data, n, 4, 447);
    BlockAt(data, n, 5, 494);
    BlockAt(data, n, 6, 494 + n);
  }

  lemma BlocksAt(data: Bytes, n: nat)
    requires |data| == FIXED_LENGTH + n
    ensures |data| == Total(BlockSizes(n)) && Fits(Chop(data, BlockSizes(n)), BlockSizes(n))
    ensures var r := ReadBlocks(Chop(data, BlockSizes(n)), n);
      r.0 == TranscriptAt(data, n) && r.1 == HeadOk(HeadOf(data[..114]))
  {
    FrontBlocksAt(data, n);
    BackBlocksAt(data, n);
  }

  method ReadLocalFields(reader: Reader) returns (fs: seq<Bytes>)
    requires reader.Valid() && reader.offset == 447 && |reader.data| >= 494
    modifies reader
    ensures reader.Valid() && reader.offset == 494 && fs == LocalOf(reader.data[447..494])
  {
    LastLocalField(reader.data[447..494]);
    var f := reader.Fields(LocalSizes());
    return f.value;
  }

  /** The fields of the local block that stand before the samples, their number, and the samples. */
  method ReadSignals(reader: Reader, minimum: nat) returns (r: Option<Local>)
    requires reader.Valid() && reader.offset == 447 && |reader.data| >= 494
    modifies reader
    ensures reader.Valid()
    ensures var data := reader.data;
      var count := Little(data[490..494]);
      if count < minimum || count > MAX_SAMPLES || 494 + count > |data| then r.None?
      else reader.offset == 494 + count && r == Some(ReadLocal(data[447..494], data[494..494 + count]))
  {
    var fs := ReadLocalFields(reader);
    LastLocalField(reader.data[447..494]);
    assert reader.data[447..494][43..47] == reader.data[490..494];
    var accuracy := Number(fs[1]);
    var barometer := Number(fs[2]);
    var motion := Number(fs[3]);
    var count := Number(fs[5]);
    if count < minimum || count > MAX_SAMPLES { return None; }
    var samples := reader.Samples(count);
    if samples.None? { return None; }
    return Some(Local(fs[0], accuracy, barometer, motion, fs[4], samples.value));
  }

  /** What stands before the challenges, if the version and the number of challenges are right. */
  method ReadHead(reader: Reader) returns (r: Option<seq<Bytes>>)
    requires reader.Valid() && reader.offset == 0 && |reader.data| >= 114
    modifies reader
    ensures reader.Valid() && reader.offset == 114
    ensures var h := HeadOf(reader.data[..114]); r == if HeadOk(h) then Some(h) else None
  {
    Totals(0);
    assert reader.data[0..114] == reader.data[..114];
    var head := reader.Fields(HeadSizes());
    if head.value[0] != [0] { return None; }
    var count := Number(head.value[7]);
    if count != 3 { return None; }
    return head;
  }

  /** What stands behind the samples, with nothing left over. */
  method ReadTail(reader: Reader) returns (r: Option<seq<Bytes>>)
    requires reader.Valid()
    modifies reader
    ensures var start := old(reader.offset);
      if |reader.data| != start + 97 then r.None? else r == Some(TailOf(reader.data[start..]))
  {
    ghost var start := reader.offset;
    TailTotal();
    r := reader.Fields(TailSizes());
    if r.None? || reader.offset != |reader.data| { return None; }
    assert reader.data[start..start + 97] == reader.data[start..];
  }

  lemma TailTotal()
    ensures Total(TailSizes()) == 97
  {
    Totals(0);
  }

  method Collect(h: seq<Bytes>, challenges: seq<Challenge>, local: Local, e: seq<Bytes>) returns (t: Transcript)
    requires |h| == 8 && |e| == 4
    ensures t == Assemble(h, challenges, local, e)
  {
    var curve := Number(h[4]);
    var epoch := Number(h[5]);
    var time := Number(h[6]);
    var observerClass := Number(e[3]);
    t := Transcript(h[1], h[2], h[3], curve, epoch, time, challenges, local, e[0], e[1], e[2], observerClass);
  }

  /** Field by field, with the checks where the fields are read. */
  method DecodeTranscript(data: Bytes, minimum: nat) returns (r: Option<Transcript>)
    ensures r == Decode(data, minimum)
  {
    if minimum > ENCODER_MINIMUM { return None; }
    if |data| < FIXED_LENGTH + minimum || |data| > FIXED_LENGTH + MAX_SAMPLES { return None; }
    DecodeAt(data, minimum);
    var reader := new Reader(data);
    var head := ReadHead(reader);
    if head.None? { return None; }
    var challenges := reader.ReadThree();
    var local := ReadSignals(reader, minimum);
    if local.None? { return None; }
    var tail := ReadTail(reader);
    if tail.None? { return None; }
    var t := Collect(head.value, challenges, local.value, tail.value);
    if !Valid(t, minimum) { return None; }
    return Some(t);
  }

  /** Decode in terms of where the fields stand. */
  lemma DecodeAt(data: Bytes, minimum: nat)
    requires minimum <= ENCODER_MINIMUM && FIXED_LENGTH + minimum <= |data| <= FIXED_LENGTH + MAX_SAMPLES
    ensures var n := Little(data[490..494]);
      Decode(data, minimum) ==
        if minimum <= n <= MAX_SAMPLES && |data| == FIXED_LENGTH + n && HeadOk(HeadOf(data[..114])) &&
           Valid(TranscriptAt(data, n), minimum)
        then Some(TranscriptAt(data, n)) else None
  {
    var n := Little(data[490..494]);
    if |data| == FIXED_LENGTH + n { BlocksAt(data, n); }
  }
}
