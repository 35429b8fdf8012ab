/** What a BB84 round guarantees, for every configuration and every draw. */
module RoundProperties {
  import opened Wrappers
  import opened Bits
  import opened PhysicalLayer
  import opened Protocol
  import Cascade
  import Toeplitz

  /** The hash length of a round that got as far as amplification. */
  function HashLength(cfg: Config, d: RoundDraws): int
    requires d.Valid(cfg.numRawBits)
  {
    var secure := SecureBits(|AliceRemaining(cfg, d)|, SecureFraction(cfg.log2, RoundEstimate(cfg, d).qber));
    if secure < cfg.targetKeyLengthBits then secure else cfg.targetKeyLengthBits
  }

  /** A round aborts exactly when it has no key, and exactly when one of the four stages
      falls short. */
  lemma RoundOutcome(cfg: Config, d: RoundDraws)
    requires d.Valid(cfg.numRawBits) && cfg.targetKeyLengthBits >= 1
    ensures var r := Round(cfg, d);
            && (r.Aborted() <==> r.key.None?)
            && (r.Aborted() ==> r.finalKeyBits == 0)
            && (!r.Aborted() <==> && |RoundSifted(cfg, d).alice| >= MIN_SIFTED_BITS
                                  && RoundEstimate(cfg, d).qber < cfg.qberThreshold
                                  && HashLength(cfg, d) > 0)
            && (!r.Aborted() ==> r.qber == RoundEstimate(cfg, d).qber && r.siftedBits == |RoundSifted(cfg, d).alice|)
  {
    RoundStages(cfg, d);
    AmplifiedSize(cfg, d);
  }

  /** The stages of a round, up to the amplified key. */
  lemma RoundStages(cfg: Config, d: RoundDraws)
    requires d.Valid(cfg.numRawBits)
    ensures var r := Round(cfg, d);
            && (r.Aborted() ==> r.finalKeyBits == 0)
            && (!r.Aborted() <==> && |RoundSifted(cfg, d).alice| >= MIN_SIFTED_BITS
                                  && RoundEstimate(cfg, d).qber < cfg.qberThreshold
                                  && RoundKey(cfg, d).Some?)
            && (!r.Aborted() ==> r.qber == RoundEstimate(cfg, d).qber && r.siftedBits == |RoundSifted(cfg, d).alice|
                                 && r.key == RoundKey(cfg, d) && r.finalKeyBits == 8 * |r.key.value|)
  {
    NothingDetectedNothingSifted(cfg, d);
  }

  lemma AmplifiedSize(cfg: Config, d: RoundDraws)
    requires d.Valid(cfg.numRawBits) && cfg.targetKeyLengthBits >= 1
    ensures RoundKey(cfg, d).Some? <==> HashLength(cfg, d) > 0
    ensures RoundKey(cfg, d).Some? ==> |RoundKey(cfg, d).value| == (HashLength(cfg, d) + 7) / 8
  {
    AmplifyOutcome(RoundCorrected(cfg, d), RoundEstimate(cfg, d).qber, cfg.targetKeyLengthBits, cfg.log2, d.toeplitz);
  }

  lemma NothingDetectedNothingSifted(cfg: Config, d: RoundDraws)
    requires d.Valid(cfg.numRawBits)
    ensures Detections(RoundEvents(cfg, d)) == 0 ==> |RoundSifted(cfg, d).alice| == 0
  {
    SiftedAtMostDetections(d.aliceBits, d.aliceBases, d.bobBases, RoundEvents(cfg, d), cfg.numRawBits);
    assert RoundEvents(cfg, d)[..cfg.numRawBits] == RoundEvents(cfg, d);
  }

  lemma AmplifyOutcome(bits: seq<Bit>, qber: real, target: int, log2: real -> real, toeplitz: nat -> seq<Bit>)
    requires (forall m :: |toeplitz(m)| == m) && target >= 1
    ensures var key := PrivacyAmplify(bits, qber, target, log2, toeplitz);
            var secure := SecureBits(|bits|, SecureFraction(log2, qber));
            var m := if secure < target then secure else target;
            && (key.Some? <==> m > 0)
            && (key.Some? ==> |bits| + m - 1 >= 0 && key.value == Toeplitz.Hash(toeplitz(|bits| + m - 1), bits, m)
                              && |key.value| == (m + 7) / 8)
  {
  }

  /** The key of a round that does not abort holds min(target, secure) hashed bits padded
      to bytes: at least 64 bits fewer than were reconciled, and fewer than were sifted. */
  lemma KeySize(cfg: Config, d: RoundDraws)
    requires cfg.Valid() && d.Valid(cfg.numRawBits) && cfg.targetKeyLengthBits >= 1
    requires !Round(cfg, d).Aborted()
    ensures var r, m := Round(cfg, d), HashLength(cfg, d);
            && r.finalKeyBits == 8 * ((m + 7) / 8)
            && m <= |AliceRemaining(cfg, d)| - SECURITY_PARAMETER
            && r.finalKeyBits < r.siftedBits
  {
    SurvivorsBits(cfg, d);
    HashLengthBound(cfg, d);
    ByteRounding(HashLength(cfg, d), |AliceRemaining(cfg, d)|, |RoundSifted(cfg, d).alice|);
  }

  lemma SurvivorsBits(cfg: Config, d: RoundDraws)
    requires d.Valid(cfg.numRawBits) && cfg.targetKeyLengthBits >= 1 && !Round(cfg, d).Aborted()
    ensures Round(cfg, d).finalKeyBits == 8 * ((HashLength(cfg, d) + 7) / 8) && HashLength(cfg, d) > 0
    ensures Round(cfg, d).siftedBits == |RoundSifted(cfg, d).alice|
  {
    RoundStages(cfg, d);
    AmplifiedSize(cfg, d);
  }

  lemma HashLengthBound(cfg: Config, d: RoundDraws)
    requires cfg.Valid() && d.Valid(cfg.numRawBits)
    ensures HashLength(cfg, d) <= |AliceRemaining(cfg, d)| - SECURITY_PARAMETER
    ensures |AliceRemaining(cfg, d)| <= |RoundSifted(cfg, d).alice|
  {
    SecureBitsBound(|AliceRemaining(cfg, d)|, cfg.log2, RoundEstimate(cfg, d).qber);
  }

  lemma ByteRounding(m: int, n: int, sifted: int)
    requires m <= n - SECURITY_PARAMETER && n <= sifted
    ensures 8 * ((m + 7) / 8) <= m + 7 < sifted
  {
  }

  /** From half a bit of entropy on nothing is left to hash: such a round aborts whatever
      its threshold. */
  lemma HalfBitAborts(cfg: Config, d: RoundDraws)
    requires d.Valid(cfg.numRawBits) && cfg.targetKeyLengthBits >= 1
    requires RoundEstimate(cfg, d).qber > 0.0 && BinaryEntropy(cfg.log2, RoundEstimate(cfg, d).qber) >= 0.5
    ensures Round(cfg, d).Aborted()
  {
    RoundOutcome(cfg, d);
    assert SecureFraction(cfg.log2, RoundEstimate(cfg, d).qber) == 0.0;
    NothingSecure(|AliceRemaining(cfg, d)|);
  }

  lemma NothingSecure(n: nat)
    ensures SecureBits(n, 0.0) < 0
  {
  }

  /** Sampling loses no error: found plus remaining is the distance of the sifted strings. */
  lemma SampleAccounting(cfg: Config, d: RoundDraws)
    requires d.Valid(cfg.numRawBits)
    ensures var s := RoundSifted(cfg, d);
            RoundEstimate(cfg, d).errorsFound + |Cascade.Wrong(AliceRemaining(cfg, d), BobRemaining(cfg, d))| ==
            |Cascade.Wrong(s.alice, s.bob)|
  {
    var s := RoundSifted(cfg, d);
    Cascade.WrongSplit(s.alice, s.bob, RoundEstimate(cfg, d).sampleSize);
  }

  // ----- key length -----

  lemma SiftedBound(cfg: Config, d: RoundDraws)
    requires d.Valid(cfg.numRawBits)
    ensures |RoundSifted(cfg, d).alice| <= CeilDiv(cfg.numRawBits, DeadTimePulses(cfg.channel.deadTimeNs))
  {
    var events := RoundEvents(cfg, d);
    SiftedAtMostDetections(d.aliceBits, d.aliceBases, d.bobBases, events, cfg.numRawBits);
    assert events[..cfg.numRawBits] == events;
    DetectionsBounded(cfg.channel, d.Sent(cfg.numRawBits));
  }

  /** The end-to-end bound: n pulses and a dead time of D pulses give at most
      ceil(n / D) - 58 key bits. */
  lemma KeyLengthBound(cfg: Config, d: RoundDraws)
    requires cfg.Valid() && d.Valid(cfg.numRawBits) && cfg.targetKeyLengthBits >= 1
    ensures var r := Round(cfg, d);
            !r.Aborted() ==> r.finalKeyBits + 58 <= CeilDiv(cfg.numRawBits, DeadTimePulses(cfg.channel.deadTimeNs))
  {
    if !Round(cfg, d).Aborted() {
      KeySize(cfg, d);
      SiftedBound(cfg, d);
    }
  }

  /** Longer sifted strings leave longer remainders. */
  lemma {:induction false} RemainderMonotone(s: nat, t: nat, fraction: real)
    requires s <= t
    ensures s - SampleSize(s, fraction) <= t - SampleSize(t, fraction)
    decreases t
  {
    if s < t {
      RemainderMonotone(s, t - 1, fraction);
      RemainderStep(t - 1, fraction);
    }
  }

  lemma RemainderStep(s: nat, fraction: real)
    ensures s - SampleSize(s, fraction) <= s + 1 - SampleSize(s + 1, fraction) <= s - SampleSize(s, fraction) + 1
  {
    PortionStep(s, fraction);
    ClipStep(s, Portion(s, fraction), Portion(s + 1, fraction), fraction);
  }

  lemma PortionStep(s: nat, f: real)
    ensures Portion(s + 1, f) == Portion(s, f) + f
    ensures if f > 1.0 then Portion(s, f) >= s as real else if f >= 0.0 then Portion(s, f) >= 0.0 else Portion(s, f) <= 0.0
  {
    assert (s + 1) as real == s as real + 1.0;
    if f > 1.0 {
      ScaleUp(s as real, f);
    } else if f >= 0.0 {
      ScaleDown(s as real, f);
    } else {
      ProductNonPositive(s as real, f);
    }
  }

  lemma ClipStep(s: nat, x: real, y: real, f: real)
    requires y == x + f
    requires if f > 1.0 then x >= s as real else if f >= 0.0 then x >= 0.0 else x <= 0.0
    ensures s - Clip(Truncate(x), s) <= s + 1 - Clip(Truncate(y), s + 1) <= s - Clip(Truncate(x), s) + 1
  {
  }

  /** Every shorter remainder is left by some shorter sifted string. */
  lemma {:induction false} RemainderAttained(top: nat, fraction: real, m: nat) returns (s: nat)
    requires 0 < m <= top - SampleSize(top, fraction)
    ensures 0 < s <= top && s - SampleSize(s, fraction) == m
  {
    if m == top - SampleSize(top, fraction) {
      s := top;
    } else {
      RemainderStep(top - 1, fraction);
      s := RemainderAttained(top - 1, fraction, m);
    }
  }

  lemma ScaleUp(x: real, f: real)
    requires x >= 0.0 && f >= 1.0
    ensures x * f >= x
  {
  }

  /** The longest remainder that n pulses can leave. */
  function LongestRemainder(cfg: Config): nat {
    var s := CeilDiv(cfg.numRawBits, DeadTimePulses(cfg.channel.deadTimeNs));
    s - SampleSize(s, cfg.sampleFraction)
  }

  ghost predicate Delivers(cfg: Config, d: RoundDraws, bytes: nat)
    requires d.Valid(cfg.numRawBits)
  {
    var key := Round(cfg, d).key;
    key.Some? && |key.value| == bytes
  }

  /** The bits that must survive amplification to reach into the last of so many bytes. */
  function BitsNeeded(bytes: nat): int {
    8 * (bytes - 1) + 1
  }

  lemma BytesOfBits(m: int, bytes: nat)
    requires m > 0 && (m + 7) / 8 == bytes
    ensures BitsNeeded(bytes) <= m <= 8 * bytes
  {
  }

  lemma EmptyTarget(cfg: Config, d: RoundDraws, bytes: nat)
    requires d.Valid(cfg.numRawBits) && bytes > 0 && Delivers(cfg, d, bytes)
    ensures cfg.targetKeyLengthBits >= 1
  {
  }

  /** Whatever is drawn, a key of so many bytes takes a long enough target and remainder. */
  lemma KeyNeedsRemainder(cfg: Config, d: RoundDraws, bytes: nat)
    requires cfg.Valid() && d.Valid(cfg.numRawBits) && bytes > 0
    requires Delivers(cfg, d, bytes)
    ensures cfg.targetKeyLengthBits >= BitsNeeded(bytes)
    ensures LongestRemainder(cfg) - SECURITY_PARAMETER >= BitsNeeded(bytes)
    ensures cfg.qberThreshold > 0.0
  {
    EmptyTarget(cfg, d, bytes);
    SurvivorsBits(cfg, d);
    SurvivorsQber(cfg, d);
    assert Round(cfg, d).finalKeyBits == 8 * bytes;
    BytesOfBits(HashLength(cfg, d), bytes);
    HashLengthBound(cfg, d);
    RemainderBound(cfg, d);
  }

  lemma RemainderBound(cfg: Config, d: RoundDraws)
    requires d.Valid(cfg.numRawBits)
    ensures |AliceRemaining(cfg, d)| <= LongestRemainder(cfg)
  {
    SiftedBound(cfg, d);
    RemainderMonotone(|RoundSifted(cfg, d).alice|, CeilDiv(cfg.numRawBits, DeadTimePulses(cfg.channel.deadTimeNs)),
                      cfg.sampleFraction);
  }

  lemma SurvivorsQber(cfg: Config, d: RoundDraws)
    requires d.Valid(cfg.numRawBits) && Round(cfg, d).key.Some?
    ensures 0.0 <= RoundEstimate(cfg, d).qber < cfg.qberThreshold
  {
    CleanEstimate(RoundSifted(cfg, d).alice, RoundSifted(cfg, d).bob, cfg.sampleFraction, cfg.qberThreshold);
  }

  /** Nothing survives if neither photons nor dark counts can trigger the detector. */
  lemma KeyNeedsClicks(cfg: Config, d: RoundDraws)
    requires d.Valid(cfg.numRawBits) && d.Possible(cfg.channel) && Round(cfg, d).key.Some?
    ensures CanClick(cfg.channel)
  {
    if !CanClick(cfg.channel) {
      NoSourceNoDetection(cfg.channel, d.Sent(cfg.numRawBits), cfg.numRawBits);
    }
  }

  // ----- errors and eavesdropping -----

  /** With no dark counts and no misalignment, every sifted disagreement is Eve's doing:
      she intercepted that pulse and guessed another basis than Alice's. */
  lemma DisagreementIsInterception(cfg: Config, d: RoundDraws, k: nat)
    requires d.Valid(cfg.numRawBits)
    requires cfg.channel.darkCountRate <= 0.0 && cfg.channel.misalignmentErrorProb <= 0.0
    requires k < |RoundSifted(cfg, d).indices|
    requires RoundSifted(cfg, d).alice[k] != RoundSifted(cfg, d).bob[k]
    ensures var i := RoundSifted(cfg, d).indices[k];
            && i < cfg.numRawBits && d.eve.Some?
            && d.eve.value.draws[i].chance < d.eve.value.interceptionRate
            && d.eve.value.draws[i].basis != d.aliceBases[i]
  {
    var n, s, p := cfg.numRawBits, RoundSifted(cfg, d), d.Sent(cfg.numRawBits);
    SiftIsSifted(d.aliceBits, d.aliceBases, d.bobBases, RoundEvents(cfg, d), n);
    var i := s.indices[k];
    assert i in s.indices;
    assert Matches(d.aliceBases, d.bobBases, RoundEvents(cfg, d), i);
    NoiselessReading(cfg.channel, None, p, n, i);
  }

  lemma SiftedAgree(cfg: Config, d: RoundDraws)
    requires d.Valid(cfg.numRawBits)
    requires cfg.channel.darkCountRate <= 0.0 && cfg.channel.misalignmentErrorProb <= 0.0
    requires d.eve.Some? ==> d.eve.value.interceptionRate <= 0.0
    ensures RoundSifted(cfg, d).alice == RoundSifted(cfg, d).bob
  {
    var s := RoundSifted(cfg, d);
    forall k | 0 <= k < |s.indices| ensures s.alice[k] == s.bob[k] {
      if s.alice[k] != s.bob[k] {
        DisagreementIsInterception(cfg, d, k);
      }
    }
  }

  lemma SurvivorsKey(cfg: Config, d: RoundDraws)
    requires d.Valid(cfg.numRawBits) && cfg.targetKeyLengthBits >= 1 && !Round(cfg, d).Aborted()
    ensures var n, m := |RoundCorrected(cfg, d)|, HashLength(cfg, d);
            n + m - 1 >= 0 && Round(cfg, d).key == Some(Toeplitz.Hash(d.toeplitz(n + m - 1), RoundCorrected(cfg, d), m))
  {
    RoundStages(cfg, d);
    AmplifiedKey(cfg, d);
  }

  lemma AmplifiedKey(cfg: Config, d: RoundDraws)
    requires d.Valid(cfg.numRawBits) && cfg.targetKeyLengthBits >= 1 && RoundKey(cfg, d).Some?
    ensures var n, m := |RoundCorrected(cfg, d)|, HashLength(cfg, d);
            n + m - 1 >= 0 && RoundKey(cfg, d) == Some(Toeplitz.Hash(d.toeplitz(n + m - 1), RoundCorrected(cfg, d), m))
  {
    AmplifyOutcome(RoundCorrected(cfg, d), RoundEstimate(cfg, d).qber, cfg.targetKeyLengthBits, cfg.log2, d.toeplitz);
  }

  lemma CleanHashLength(cfg: Config, d: RoundDraws)
    requires cfg.Valid() && d.Valid(cfg.numRawBits) && RoundEstimate(cfg, d).qber == 0.0
    ensures HashLength(cfg, d) == CleanLength(|AliceRemaining(cfg, d)|, cfg.targetKeyLengthBits)
  {
    SecureBitsBound(|AliceRemaining(cfg, d)|, cfg.log2, 0.0);
  }

  /** The hash length after a clean sample. */
  function CleanLength(n: nat, target: int): int {
    if n - SECURITY_PARAMETER < target then n - SECURITY_PARAMETER else target
  }

  /** The round yields the hash of `bits`, exactly when they are longer than the security
      parameter and enough bits were sifted. */
  ghost predicate YieldsHashOf(cfg: Config, d: RoundDraws, bits: seq<Bit>)
    requires d.Valid(cfg.numRawBits) && cfg.targetKeyLengthBits >= 1
  {
    var r, n := Round(cfg, d), |bits|;
    && (!r.Aborted() <==> |RoundSifted(cfg, d).alice| >= MIN_SIFTED_BITS && n > SECURITY_PARAMETER)
    && (!r.Aborted() ==>
          var m := CleanLength(n, cfg.targetKeyLengthBits);
          n + m - 1 >= 0 && r.key == Some(Toeplitz.Hash(d.toeplitz(n + m - 1), bits, m)))
  }

  /** After a clean sample the estimate is zero, nothing is corrected, and the round yields
      the hash of Bob's own remainder. */
  lemma CleanOutcome(cfg: Config, d: RoundDraws)
    requires cfg.Valid() && d.Valid(cfg.numRawBits)
    requires cfg.targetKeyLengthBits >= 1 && cfg.qberThreshold > 0.0
    requires RoundEstimate(cfg, d).errorsFound == 0
    ensures RoundEstimate(cfg, d).qber == 0.0
    ensures RoundCorrected(cfg, d) == BobRemaining(cfg, d)
    ensures YieldsHashOf(cfg, d, BobRemaining(cfg, d))
  {
    CleanSampleSkipsCascade(cfg, d);
    CleanQber(cfg, d);
    CleanSurvival(cfg, d);
    CleanYields(cfg, d, BobRemaining(cfg, d));
  }

  lemma CleanYields(cfg: Config, d: RoundDraws, bits: seq<Bit>)
    requires cfg.Valid() && d.Valid(cfg.numRawBits) && cfg.targetKeyLengthBits >= 1
    requires RoundEstimate(cfg, d).qber == 0.0 && RoundCorrected(cfg, d) == bits
    requires !Round(cfg, d).Aborted() <==>
             |RoundSifted(cfg, d).alice| >= MIN_SIFTED_BITS && |bits| > SECURITY_PARAMETER
    ensures YieldsHashOf(cfg, d, bits)
  {
    if !Round(cfg, d).Aborted() {
      CleanKey(cfg, d, bits);
    }
  }

  lemma CleanKey(cfg: Config, d: RoundDraws, bits: seq<Bit>)
    requires cfg.Valid() && d.Valid(cfg.numRawBits) && cfg.targetKeyLengthBits >= 1 && !Round(cfg, d).Aborted()
    requires RoundEstimate(cfg, d).qber == 0.0 && RoundCorrected(cfg, d) == bits
    ensures var n, m := |bits|, CleanLength(|bits|, cfg.targetKeyLengthBits);
            n + m - 1 >= 0 && Round(cfg, d).key == Some(Toeplitz.Hash(d.toeplitz(n + m - 1), bits, m))
  {
    CleanHashLength(cfg, d);
    SurvivorsKey(cfg, d);
  }

  lemma CleanSurvival(cfg: Config, d: RoundDraws)
    requires cfg.Valid() && d.Valid(cfg.numRawBits) && RoundEstimate(cfg, d).qber == 0.0
    requires cfg.targetKeyLengthBits >= 1 && cfg.qberThreshold > 0.0
    ensures !Round(cfg, d).Aborted() <==>
            |RoundSifted(cfg, d).alice| >= MIN_SIFTED_BITS && |AliceRemaining(cfg, d)| > SECURITY_PARAMETER
  {
    RoundOutcome(cfg, d);
    CleanHashLength(cfg, d);
  }

  lemma CleanQber(cfg: Config, d: RoundDraws)
    requires d.Valid(cfg.numRawBits) && RoundEstimate(cfg, d).errorsFound == 0
    ensures RoundEstimate(cfg, d).qber == 0.0
  {
    CleanEstimate(RoundSifted(cfg, d).alice, RoundSifted(cfg, d).bob, cfg.sampleFraction, cfg.qberThreshold);
  }

  /** If Alice's and Bob's sifted strings agree, that is the hash of Alice's own remainder. */
  lemma AgreementOutcome(cfg: Config, d: RoundDraws)
    requires cfg.Valid() && d.Valid(cfg.numRawBits)
    requires cfg.targetKeyLengthBits >= 1 && cfg.qberThreshold > 0.0
    requires RoundSifted(cfg, d).alice == RoundSifted(cfg, d).bob
    ensures RoundEstimate(cfg, d).qber == 0.0
    ensures RoundCorrected(cfg, d) == AliceRemaining(cfg, d)
    ensures YieldsHashOf(cfg, d, AliceRemaining(cfg, d))
  {
    AgreementIsClean(cfg, d);
    CleanOutcome(cfg, d);
  }

  lemma AgreementIsClean(cfg: Config, d: RoundDraws)
    requires d.Valid(cfg.numRawBits) && RoundSifted(cfg, d).alice == RoundSifted(cfg, d).bob
    ensures RoundEstimate(cfg, d).errorsFound == 0 && AliceRemaining(cfg, d) == BobRemaining(cfg, d)
  {
    var s, size := RoundSifted(cfg, d), RoundEstimate(cfg, d).sampleSize;
    Cascade.NothingWrong(s.alice[..size], s.bob[..size]);
  }

  /** No noise and no interception: Bob ends up with the hash of Alice's string. */
  lemma NoiselessRound(cfg: Config, d: RoundDraws)
    requires cfg.Valid() && d.Valid(cfg.numRawBits)
    requires cfg.targetKeyLengthBits >= 1 && cfg.qberThreshold > 0.0
    requires cfg.channel.darkCountRate <= 0.0 && cfg.channel.misalignmentErrorProb <= 0.0
    requires d.eve.Some? ==> d.eve.value.interceptionRate <= 0.0
    ensures RoundEstimate(cfg, d).qber == 0.0 && RoundCorrected(cfg, d) == AliceRemaining(cfg, d)
    ensures !Round(cfg, d).Aborted() <==>
            |RoundSifted(cfg, d).alice| >= MIN_SIFTED_BITS && |AliceRemaining(cfg, d)| > SECURITY_PARAMETER
  {
    SiftedAgree(cfg, d);
    AgreementOutcome(cfg, d);
  }

  /** A clean sample switches correction off: Bob's remainder is hashed as it is, and it
      is Alice's exactly when the sifted strings agreed everywhere. */
  lemma CleanSampleSkipsCascade(cfg: Config, d: RoundDraws)
    requires d.Valid(cfg.numRawBits) && RoundEstimate(cfg, d).errorsFound == 0
    ensures RoundCorrected(cfg, d) == BobRemaining(cfg, d)
    ensures RoundCorrected(cfg, d) == AliceRemaining(cfg, d) <==> RoundSifted(cfg, d).alice == RoundSifted(cfg, d).bob
  {
    var s, a, b := RoundSifted(cfg, d), AliceRemaining(cfg, d), BobRemaining(cfg, d);
    CleanEstimate(s.alice, s.bob, cfg.sampleFraction, cfg.qberThreshold);
    Cascade.NoEstimateNoCorrection(a, b, RoundEstimate(cfg, d).qber, d.Permutations(|a|));
    SampleAccounting(cfg, d);
    Cascade.NothingWrong(s.alice, s.bob);
    Cascade.NothingWrong(a, b);
  }

  /** When a round hashes Alice's string: after a clean sample exactly if the sifted strings
      agreed everywhere, after errors in the sample exactly if the last Cascade pass meets
      no block with two errors. */
  lemma ReconciledIff(cfg: Config, d: RoundDraws)
    requires d.Valid(cfg.numRawBits) && |AliceRemaining(cfg, d)| > 0
    ensures var (a, b) := (AliceRemaining(cfg, d), BobRemaining(cfg, d));
            var (e, perms) := (RoundEstimate(cfg, d), d.Permutations(|a|));
            && (e.errorsFound == 0 <==> e.qber <= 0.0)
            && (RoundCorrected(cfg, d) == a <==>
                if e.qber <= 0.0 then RoundSifted(cfg, d).alice == RoundSifted(cfg, d).bob
                else
                  var initial := Cascade.InitialBlockSize(e.qber);
                  Cascade.AtMostOneEach(a, Cascade.AfterPasses(a, b, initial, perms, Cascade.PASSES - 1),
                                        Cascade.PassBlocks(Cascade.PASSES - 1, |a|, initial, perms)))
            && (e.qber > 0.0 ==> |Cascade.Wrong(a, RoundCorrected(cfg, d))| % 2 == 0)
  {
    var a, b, e := AliceRemaining(cfg, d), BobRemaining(cfg, d), RoundEstimate(cfg, d);
    CleanEstimate(RoundSifted(cfg, d).alice, RoundSifted(cfg, d).bob, cfg.sampleFraction, cfg.qberThreshold);
    if e.qber <= 0.0 {
      CleanSampleSkipsCascade(cfg, d);
    } else {
      Cascade.CascadeSucceedsIff(a, b, e.qber, d.Permutations(|a|));
      Cascade.CascadeResidual(a, b, e.qber, d.Permutations(|a|));
    }
  }

  /** Correction runs in a surviving round only if the errors found in the sample stay
      below threshold * sample size, which must then exceed one. */
  lemma CascadeNeedsLargeSample(cfg: Config, d: RoundDraws)
    requires d.Valid(cfg.numRawBits) && cfg.targetKeyLengthBits >= 1 && !Round(cfg, d).Aborted()
    ensures FewErrors(RoundEstimate(cfg, d), cfg.qberThreshold)
  {
    RoundOutcome(cfg, d);
    SecureEstimate(RoundSifted(cfg, d).alice, RoundSifted(cfg, d).bob, cfg.sampleFraction, cfg.qberThreshold);
  }

  // ----- which keys a configuration can reach -----

  /** Favourable draws: every pulse triggers, Alice's bits are zero, and the bases agree on
      the first `t` pulses only. An eavesdropper makes pulse `wrong`, if there is one, read
      as one; and where misalignment flips every outcome, an eavesdropper who resends in
      the other basis makes outcomes random, so that zero can be read. */
  function FavourableDraws(cfg: Config, t: nat, wrong: int): RoundDraws {
    var n, photons := cfg.numRawBits, if PhotonsClick(cfg.channel) then 1 else 0;
    var m := cfg.channel.misalignmentErrorProb;
    var flip := if 0.0 <= m < 1.0 then m else 0.0;
    var eve :=
      if m < 1.0 && wrong < 0 then None
      else Some(Eve(0.5, seq(n, i => EveDraws(if m >= 1.0 || i == wrong then 0.0 else 0.5, Diagonal, Misread(i, wrong)))));
    RoundDraws(Zeros(n), seq(n, _ => Rectilinear), seq(n, i => if i < t then Rectilinear else Diagonal), eve,
               seq(n, i => PulseDraws(photons, photons, photons, 0.0, 0.0, flip, Misread(i, wrong))),
               (pass, m) => Cascade.Identity(m), m => Zeros(m), 0.0)
  }

  function Misread(i: int, wrong: int): Bit {
    if i == wrong then 1 else 0
  }

  lemma FavourablePossible(cfg: Config, t: nat, wrong: int)
    requires CanClick(cfg.channel) && t <= cfg.numRawBits
    ensures var d := FavourableDraws(cfg, t, wrong); AgreesUpTo(cfg, d, t) && d.Possible(cfg.channel)
  {
  }

  /** If every pulse triggers, ceil(k / dead time) bits are sifted from `k` pulses with
      agreeing bases. */
  lemma TriggeredLength(cfg: Config, d: RoundDraws, k: nat)
    requires d.Valid(cfg.numRawBits) && k <= cfg.numRawBits && d.aliceBases[..k] == d.bobBases[..k]
    requires forall i :: 0 <= i < cfg.numRawBits ==> Triggers(cfg.channel, d.pulses[i])
    ensures |Sift(d.aliceBits, d.aliceBases, d.bobBases, RoundEvents(cfg, d), k).alice| ==
            CeilDiv(k, DeadTimePulses(cfg.channel.deadTimeNs))
  {
    var p := d.Sent(cfg.numRawBits);
    if k > 0 {
      DetectionsAttained(cfg.channel, p, k);
    }
    RunPrefix(cfg.channel, None, p, k, cfg.numRawBits);
    SiftedAtMostDetections(d.aliceBits, d.aliceBases, d.bobBases, RoundEvents(cfg, d), k);
  }

  /** Every pulse triggers, and the bases agree on the first `t` pulses only. */
  ghost predicate AgreesUpTo(cfg: Config, d: RoundDraws, t: nat) {
    && d.Valid(cfg.numRawBits) && t <= cfg.numRawBits
    && (forall i :: 0 <= i < cfg.numRawBits ==> Triggers(cfg.channel, d.pulses[i]))
    && (forall i :: 0 <= i < cfg.numRawBits ==> (d.aliceBases[i] == d.bobBases[i] <==> i < t))
  }

  lemma AgreeingLength(cfg: Config, d: RoundDraws, t: nat)
    requires AgreesUpTo(cfg, d, t)
    ensures RoundSifted(cfg, d) == Sift(d.aliceBits, d.aliceBases, d.bobBases, RoundEvents(cfg, d), t)
    ensures |RoundSifted(cfg, d).alice| == CeilDiv(t, DeadTimePulses(cfg.channel.deadTimeNs))
  {
    SiftStops(d.aliceBits, d.aliceBases, d.bobBases, RoundEvents(cfg, d), t, cfg.numRawBits);
    assert d.aliceBases[..t] == d.bobBases[..t];
    TriggeredLength(cfg, d, t);
  }

  /** If the last pulse with agreeing bases adds a bit, its index comes last and only there. */
  lemma AgreeingLast(cfg: Config, d: RoundDraws, t: nat)
    requires AgreesUpTo(cfg, d, t) && t > 0
    requires var deadTime := DeadTimePulses(cfg.channel.deadTimeNs); CeilDiv(t - 1, deadTime) < CeilDiv(t, deadTime)
    ensures var s := RoundSifted(cfg, d);
            forall k :: 0 <= k < |s.indices| ==> (s.indices[k] == t - 1 <==> k == |s.indices| - 1)
  {
    AgreeingLength(cfg, d, t);
    assert d.aliceBases[..t - 1] == d.bobBases[..t - 1];
    TriggeredLength(cfg, d, t - 1);
    LastIndex(d.aliceBits, d.aliceBases, d.bobBases, RoundEvents(cfg, d), t, RoundSifted(cfg, d));
  }

  lemma FavourableSent(cfg: Config, t: nat, wrong: int, i: nat)
    requires i < cfg.numRawBits && FavourableDraws(cfg, t, wrong).Valid(cfg.numRawBits)
    ensures var (d, m) := (FavourableDraws(cfg, t, wrong), cfg.channel.misalignmentErrorProb);
            var p := d.Sent(cfg.numRawBits);
            && p.bits[i] == Misread(i, wrong) == p.draws[i].randomBit
            && (m <= p.draws[i].flip || p.bases[i] == Diagonal)
  {
  }

  /** What is sifted reads as zero, but for pulse `wrong`. */
  lemma FavourableReads(cfg: Config, t: nat, wrong: int, k: nat)
    requires FavourableDraws(cfg, t, wrong).Valid(cfg.numRawBits)
    requires k < |RoundSifted(cfg, FavourableDraws(cfg, t, wrong)).alice|
    ensures var s := RoundSifted(cfg, FavourableDraws(cfg, t, wrong));
            s.alice[k] == 0 && s.bob[k] == Misread(s.indices[k], wrong)
  {
    var d, n := FavourableDraws(cfg, t, wrong), cfg.numRawBits;
    var s, events := RoundSifted(cfg, d), RoundEvents(cfg, d);
    SiftIsSifted(d.aliceBits, d.aliceBases, d.bobBases, events, n);
    var i := s.indices[k];
    assert i in s.indices;
    assert Matches(d.aliceBases, d.bobBases, events, i);
    FavourableSent(cfg, t, wrong, i);
    FavourableReading(cfg.channel, None, d.Sent(n), n, i);
  }

  /** Every length up to the longest remainder is left by some possible draws whose sifted
      strings agree. */
  lemma AnyRemainder(cfg: Config, m: nat) returns (d: RoundDraws)
    requires CanClick(cfg.channel) && 0 < m <= LongestRemainder(cfg)
    ensures d.Valid(cfg.numRawBits) && d.Possible(cfg.channel)
    ensures RoundSifted(cfg, d).alice == RoundSifted(cfg, d).bob && |AliceRemaining(cfg, d)| == m
  {
    var n, deadTime := cfg.numRawBits, DeadTimePulses(cfg.channel.deadTimeNs);
    var length := RemainderAttained(CeilDiv(n, deadTime), cfg.sampleFraction, m);
    var t := PulsesFor(n, deadTime, length);
    d := FavourableDraws(cfg, t, -1);
    FavourablePossible(cfg, t, -1);
    AgreeingLength(cfg, d, t);
    var s := RoundSifted(cfg, d);
    forall k | 0 <= k < |s.alice| ensures s.alice[k] == s.bob[k] {
      FavourableReads(cfg, t, -1, k);
    }
  }

  /** The same lengths are left by possible draws whose sifted strings differ in their last
      bit only, which is never sampled. */
  lemma AnyRemainderMisread(cfg: Config, m: nat) returns (d: RoundDraws)
    requires CanClick(cfg.channel) && 0 < m <= LongestRemainder(cfg)
    ensures d.Valid(cfg.numRawBits) && d.Possible(cfg.channel)
    ensures RoundSifted(cfg, d).alice != RoundSifted(cfg, d).bob
    ensures RoundEstimate(cfg, d).errorsFound == 0 && |AliceRemaining(cfg, d)| == m
  {
    var n, deadTime := cfg.numRawBits, DeadTimePulses(cfg.channel.deadTimeNs);
    var length := RemainderAttained(CeilDiv(n, deadTime), cfg.sampleFraction, m);
    var t := PulsesFor(n, deadTime, length);
    d := FavourableDraws(cfg, t, t - 1);
    FavourablePossible(cfg, t, t - 1);
    AgreeingLength(cfg, d, t);
    AgreeingLast(cfg, d, t);
    MisreadLast(cfg, t);
    LastBitDiffers(cfg, d);
  }

  lemma MisreadLast(cfg: Config, t: nat)
    requires FavourableDraws(cfg, t, t - 1).Valid(cfg.numRawBits)
    requires var s := RoundSifted(cfg, FavourableDraws(cfg, t, t - 1));
             forall k :: 0 <= k < |s.indices| ==> (s.indices[k] == t - 1 <==> k == |s.indices| - 1)
    ensures DifferInLastBit(RoundSifted(cfg, FavourableDraws(cfg, t, t - 1)))
  {
    var s := RoundSifted(cfg, FavourableDraws(cfg, t, t - 1));
    forall k | 0 <= k < |s.alice| ensures s.alice[k] == s.bob[k] <==> k < |s.alice| - 1 {
      FavourableReads(cfg, t, t - 1, k);
    }
  }

  ghost predicate DifferInLastBit(s: SiftedKey) {
    && |s.alice| == |s.bob|
    && forall k :: 0 <= k < |s.alice| ==> (s.alice[k] == s.bob[k] <==> k < |s.alice| - 1)
  }

  lemma LastBitDiffers(cfg: Config, d: RoundDraws)
    requires d.Valid(cfg.numRawBits) && |AliceRemaining(cfg, d)| > 0
    requires DifferInLastBit(RoundSifted(cfg, d))
    ensures RoundSifted(cfg, d).alice != RoundSifted(cfg, d).bob && RoundEstimate(cfg, d).errorsFound == 0
  {
    var s, size := RoundSifted(cfg, d), RoundEstimate(cfg, d).sampleSize;
    assert s.alice[|s.alice| - 1] != s.bob[|s.alice| - 1];
    assert s.alice[..size] == s.bob[..size];
    Cascade.NothingWrong(s.alice[..size], s.bob[..size]);
  }

  /** If the last event adds a bit, its index comes last and only there. */
  lemma LastIndex(aliceBits: seq<Bit>, aliceBases: seq<Basis>, bobBases: seq<Basis>, events: seq<DetectionEvent>,
                  t: nat, s: SiftedKey)
    requires |aliceBits| == |aliceBases| == |bobBases| == |events| && 0 < t <= |events| && Readable(events)
    requires s == Sift(aliceBits, aliceBases, bobBases, events, t)
    requires |s.alice| > |Sift(aliceBits, aliceBases, bobBases, events, t - 1).alice|
    ensures forall k :: 0 <= k < |s.indices| ==> (s.indices[k] == t - 1 <==> k == |s.indices| - 1)
  {
    var before := Sift(aliceBits, aliceBases, bobBases, events, t - 1);
    SiftIsSifted(aliceBits, aliceBases, bobBases, events, t - 1);
    assert s.indices == before.indices + [t - 1];
    assert forall k :: 0 <= k < |before.indices| ==> s.indices[k] == before.indices[k] < t - 1;
  }

  /** The number of pulses after which the detector has just clicked for the time `s`. */
  lemma PulsesFor(n: nat, deadTime: nat, s: nat) returns (t: nat)
    requires deadTime > 0 && 0 < s <= CeilDiv(n, deadTime)
    ensures 0 < t <= n && CeilDiv(t, deadTime) == s && CeilDiv(t - 1, deadTime) == s - 1
  {
    t := (s - 1) * deadTime + 1;
    assert s * deadTime == (s - 1) * deadTime + deadTime;
    CeilDivBounds(t, deadTime, s);
    CeilDivBounds(t - 1, deadTime, s - 1);
    if s > 1 {
      assert (s - 1) * deadTime == (s - 2) * deadTime + deadTime;
    }
    if n <= (s - 1) * deadTime {
      CeilDivBounds(n, deadTime, s - 1);
    }
  }

  ghost predicate CanDeliver(cfg: Config, bytes: nat) {
    exists d: RoundDraws :: d.Valid(cfg.numRawBits) && d.Possible(cfg.channel) && Delivers(cfg, d, bytes)
  }

  /** Which keys a configuration can produce: some possible draws give a key of so many
      bytes if and only if the detector can be triggered, the threshold is positive, and
      the target and the longest remainder less the security parameter reach into the
      last byte. */
  lemma KeyReachableIff(cfg: Config, bytes: nat)
    requires cfg.Valid() && bytes > 0
    ensures CanDeliver(cfg, bytes) <==>
            && CanClick(cfg.channel) && cfg.qberThreshold > 0.0
            && cfg.targetKeyLengthBits >= BitsNeeded(bytes)
            && LongestRemainder(cfg) - SECURITY_PARAMETER >= BitsNeeded(bytes)
  {
    if && CanClick(cfg.channel) && cfg.qberThreshold > 0.0
       && cfg.targetKeyLengthBits >= BitsNeeded(bytes)
       && LongestRemainder(cfg) - SECURITY_PARAMETER >= BitsNeeded(bytes)
    {
      var d := AnyRemainder(cfg, BitsNeeded(bytes) + SECURITY_PARAMETER);
      AgreementOutcome(cfg, d);
      assert Delivers(cfg, d, bytes);
    }
    forall d: RoundDraws | d.Valid(cfg.numRawBits) && d.Possible(cfg.channel) && Delivers(cfg, d, bytes)
      ensures CanClick(cfg.channel) && cfg.qberThreshold > 0.0
      ensures cfg.targetKeyLengthBits >= BitsNeeded(bytes)
      ensures LongestRemainder(cfg) - SECURITY_PARAMETER >= BitsNeeded(bytes)
    {
      KeyNeedsRemainder(cfg, d, bytes);
      KeyNeedsClicks(cfg, d);
    }
  }

  /** The round delivers a key after a clean sample, hashed from another string than
      Alice's. */
  ghost predicate DeliversMismatch(cfg: Config, d: RoundDraws, bytes: nat)
    requires d.Valid(cfg.numRawBits)
  {
    Delivers(cfg, d, bytes) && RoundEstimate(cfg, d).errorsFound == 0 && RoundCorrected(cfg, d) != AliceRemaining(cfg, d)
  }

  ghost predicate CanDeliverMismatch(cfg: Config, bytes: nat) {
    exists d: RoundDraws :: d.Valid(cfg.numRawBits) && d.Possible(cfg.channel) && DeliversMismatch(cfg, d, bytes)
  }

  /** Skipping Cascade after a clean sample does leave errors: whatever key a configuration
      can deliver at all, it can deliver hashed from a string that is not Alice's. */
  lemma MismatchReachableIff(cfg: Config, bytes: nat)
    requires cfg.Valid() && bytes > 0
    ensures CanDeliverMismatch(cfg, bytes) <==> CanDeliver(cfg, bytes)
  {
    KeyReachableIff(cfg, bytes);
    if CanDeliver(cfg, bytes) {
      var d := AnyRemainderMisread(cfg, BitsNeeded(bytes) + SECURITY_PARAMETER);
      CleanOutcome(cfg, d);
      CleanSampleSkipsCascade(cfg, d);
      assert Delivers(cfg, d, bytes);
      assert DeliversMismatch(cfg, d, bytes);
    }
  }

  /** In particular a key of the target length. */
  lemma FullKeyReachableIff(cfg: Config)
    requires cfg.Valid() && cfg.targetKeyLengthBits >= 1
    ensures var bytes := (cfg.targetKeyLengthBits + 7) / 8;
            CanDeliver(cfg, bytes) <==>
            CanClick(cfg.channel) && cfg.qberThreshold > 0.0 &&
            LongestRemainder(cfg) - SECURITY_PARAMETER >= BitsNeeded(bytes)
  {
    var bytes := (cfg.targetKeyLengthBits + 7) / 8;
    BytesOfBits(cfg.targetKeyLengthBits, bytes);
    KeyReachableIff(cfg, bytes);
  }

  // ----- a dead channel -----

  /** No photon arrives and no dark count is drawn. */
  function DarkDraws(cfg: Config): RoundDraws
    requires cfg.channel.darkCountRate < 1.0
  {
    var n := cfg.numRawBits;
    var dark := if cfg.channel.darkCountRate > 0.0 then cfg.channel.darkCountRate else 0.0;
    RoundDraws(Zeros(n), seq(n, _ => Rectilinear), seq(n, _ => Rectilinear), None,
               seq(n, _ => PulseDraws(0, 0, 0, 0.0, dark, 0.0, 0)),
               (pass, m) => Cascade.Identity(m), m => Zeros(m), 0.0)
  }

  ghost predicate Dead(cfg: Config, d: RoundDraws) {
    && d.Valid(cfg.numRawBits) && d.Possible(cfg.channel) && d.eve.None?
    && Round(cfg, d).abortReason == Some(NoPhotonsDetected)
  }

  lemma SilentRound(cfg: Config, d: RoundDraws)
    requires d.Valid(cfg.numRawBits)
    requires forall i :: 0 <= i < cfg.numRawBits ==> !Triggers(cfg.channel, d.pulses[i])
    ensures Round(cfg, d).abortReason == Some(NoPhotonsDetected)
  {
    NoTriggerNoDetection(cfg.channel, d.Sent(cfg.numRawBits), cfg.numRawBits);
  }

  lemma LoudRound(cfg: Config, d: RoundDraws)
    requires d.Valid(cfg.numRawBits) && cfg.numRawBits > 0 && cfg.channel.darkCountRate >= 1.0
    ensures Round(cfg, d).abortReason != Some(NoPhotonsDetected)
  {
    SomethingDetected(cfg, d);
  }

  lemma SomethingDetected(cfg: Config, d: RoundDraws)
    requires d.Valid(cfg.numRawBits) && cfg.numRawBits > 0 && cfg.channel.darkCountRate >= 1.0
    ensures Detections(RoundEvents(cfg, d)) > 0
  {
    DetectionsAttained(cfg.channel, d.Sent(cfg.numRawBits), cfg.numRawBits);
    CeilDivPositive(cfg.numRawBits, DeadTimePulses(cfg.channel.deadTimeNs));
  }

  lemma CeilDivPositive(n: nat, d: nat)
    requires n > 0 && d > 0
    ensures CeilDiv(n, d) > 0
  {
    CeilDivBounds(n, d, 1);
  }

  /** Without any eavesdropper a round may see nothing at all, unless every gate window
      counts dark. */
  lemma DeadRoundIff(cfg: Config)
    ensures (exists d: RoundDraws :: Dead(cfg, d)) <==> cfg.numRawBits == 0 || cfg.channel.darkCountRate < 1.0
  {
    if cfg.channel.darkCountRate < 1.0 {
      var d := DarkDraws(cfg);
      SilentRound(cfg, d);
      assert Dead(cfg, d);
    } else if cfg.numRawBits == 0 {
      var d := FavourableDraws(cfg, 0, -1);
      SilentRound(cfg, d);
      assert Dead(cfg, d.(eve := None));
    } else {
      forall d: RoundDraws | d.Valid(cfg.numRawBits) ensures Round(cfg, d).abortReason != Some(NoPhotonsDetected) {
        LoudRound(cfg, d);
      }
    }
  }

  // ----- the shipped configuration -----

  /** 4096 pulses, a tenth sampled, an 11% threshold, a 128-bit target. */
  ghost predicate DefaultProtocol(cfg: Config) {
    && cfg.numRawBits == 4096
    && cfg.sampleFraction == 0.1
    && cfg.qberThreshold == 0.11
    && cfg.targetKeyLengthBits == 128
    && cfg.Valid()
  }

  /** 4096 pulses and a tenth sampled leave 185 bits only for dead times below 21 ns. */
  lemma DefaultRemainder(cfg: Config)
    requires cfg.numRawBits == 4096 && cfg.sampleFraction == 0.1
    ensures LongestRemainder(cfg) - SECURITY_PARAMETER >= BitsNeeded(16) <==> cfg.channel.deadTimeNs < 21.0
  {
    var t := DeadTimePulses(cfg.channel.deadTimeNs);
    assert t <= 20 <==> cfg.channel.deadTimeNs < 21.0;
    if t <= 20 {
      CeilDivAntitone(4096, t, 20);
      RemainderMonotone(205, CeilDiv(4096, t), 0.1);
    } else {
      CeilDivAntitone(4096, 21, t);
      RemainderMonotone(CeilDiv(4096, t), 196, 0.1);
    }
  }

  /** With the default protocol settings a 128-bit key is possible only for dead times
      below 21 ns; the default dead time is 50 ns. */
  lemma DefaultKeyReachableIff(cfg: Config)
    requires DefaultProtocol(cfg) && CanClick(cfg.channel)
    ensures CanDeliver(cfg, 16) <==> cfg.channel.deadTimeNs < 21.0
  {
    KeyReachableIff(cfg, 16);
    DefaultRemainder(cfg);
  }

  lemma CeilDivAntitone(n: nat, d: nat, e: nat)
    requires 0 < d <= e
    ensures CeilDiv(n, e) <= CeilDiv(n, d)
  {
    var q := CeilDiv(n, d);
    assert n <= q * d by { assert n + d - 1 == q * d + (n + d - 1) % d; }
    assert n <= q * e by { MultiplyMonotone(d, e, q); }
    CeilDivBounds(n, e, q);
  }

  /** With the default 50 ns dead time every surviving round has a clean sample, leaves
      Bob's string uncorrected and delivers at most 24 bits. */
  lemma DefaultRoundsAreShort(cfg: Config, d: RoundDraws)
    requires DefaultProtocol(cfg) && cfg.channel.deadTimeNs == 50.0
    requires d.Valid(4096) && !Round(cfg, d).Aborted()
    ensures Round(cfg, d).qber == 0.0
    ensures RoundCorrected(cfg, d) == BobRemaining(cfg, d)
    ensures Round(cfg, d).finalKeyBits <= 24
  {
    KeyLengthBound(cfg, d);
    SiftedBound(cfg, d);
    var e := RoundEstimate(cfg, d);
    assert |RoundSifted(cfg, d).alice| <= 82;
    assert e.sampleSize <= 8;
    if e.errorsFound > 0 {
      CascadeNeedsLargeSample(cfg, d);
      assert false;
    }
    RoundOutcome(cfg, d);
    CleanEstimate(RoundSifted(cfg, d).alice, RoundSifted(cfg, d).bob, 0.1, 0.11);
    CleanSampleSkipsCascade(cfg, d);
  }
}
