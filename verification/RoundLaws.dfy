/** One BB84 round in terms of its inputs alone (shared/bb84/protocol.py): what is sampled
    and estimated, how long the key is, which bits it holds, and where the sifted strings
    differ. */
module RoundLaws {
  import opened Wrappers
  import opened Bits
  import opened PhysicalLayer
  import opened Protocol
  import opened RoundProperties
  import Cascade
  import CascadeLaws
  import Toeplitz

  // ----- the estimate -----

  /** `min(max(1, int(len * fraction)), len)`, without truncating. */
  ghost predicate IsSample(size: nat, len: nat, fraction: real) {
    var x := len as real * fraction;
    if len == 0 then size == 0
    else if x < 1.0 then size == 1
    else if x > len as real then size == len
    else size as real <= x < size as real + 1.0
  }

  lemma SampleLaw(len: nat, fraction: real)
    ensures IsSample(SampleSize(len, fraction), len, fraction)
  {
    SampleOf(len, fraction, Portion(len, fraction));
  }

  lemma SampleOf(len: nat, fraction: real, x: real)
    requires x == len as real * fraction
    ensures IsSample(Clip(Truncate(x), len), len, fraction)
  {
  }

  /** The errors among the first `size` bits. */
  ghost function SampledErrors(alice: seq<Bit>, bob: seq<Bit>, size: nat): set<nat>
    requires |alice| == |bob| && size <= |alice|
  {
    set i: nat | i < size && alice[i] != bob[i]
  }

  lemma ErrorsSampled(alice: seq<Bit>, bob: seq<Bit>, size: nat)
    requires |alice| == |bob| && size <= |alice|
    ensures Cascade.Wrong(alice[..size], bob[..size]) == SampledErrors(alice, bob, size)
  {
  }

  lemma RatioLaw(x: nat, y: nat, t: real)
    requires y > 0
    ensures Ratio(x, y) * y as real == x as real
    ensures Ratio(x, y) < t <==> x as real < t * y as real
  {
    QuotientCompare(x as real, y as real, t);
  }

  lemma QuotientCompare(x: real, y: real, t: real)
    requires y > 0.0
    ensures x / y < t <==> x < t * y
  {
    assert x / y * y == x;
    if x / y < t {
      ScaleStrictly(x / y, t, y);
    } else if t < x / y {
      ScaleStrictly(t, x / y, y);
    }
  }

  /** Fewer errors were sampled than the threshold allows. */
  ghost predicate SampledFew(alice: seq<Bit>, bob: seq<Bit>, size: nat, threshold: real)
    requires |alice| == |bob| && size <= |alice|
  {
    |SampledErrors(alice, bob, size)| as real < threshold * size as real
  }

  /** The sample, its errors, the estimate's value and its verdict. */
  ghost predicate EstimatedBy(e: QberEstimate, alice: seq<Bit>, bob: seq<Bit>, fraction: real, threshold: real)
    requires |alice| == |bob|
  {
    && e.sampleSize <= |alice| && IsSample(e.sampleSize, |alice|, fraction)
    && e.errorsFound == |SampledErrors(alice, bob, e.sampleSize)|
    && e.qber * e.sampleSize as real == |SampledErrors(alice, bob, e.sampleSize)| as real
    && (|alice| == 0 ==> e.qber == 0.0)
    && (e.isSecure <==> e.qber < threshold)
    && (|alice| > 0 ==> (e.isSecure <==> SampledFew(alice, bob, e.sampleSize, threshold)))
  }

  lemma EstimateLaw(alice: seq<Bit>, bob: seq<Bit>, fraction: real, threshold: real)
    requires |alice| == |bob|
    ensures EstimatedBy(EstimateQber(alice, bob, fraction, threshold), alice, bob, fraction, threshold)
  {
    var e := EstimateQber(alice, bob, fraction, threshold);
    SampleLaw(|alice|, fraction);
    ErrorsSampled(alice, bob, e.sampleSize);
    if |alice| > 0 {
      EstimateIsRatio(alice, bob, fraction, threshold);
      RatioLaw(e.errorsFound, e.sampleSize, threshold);
    } else {
      assert SampledErrors(alice, bob, 0) == {};
    }
  }

  lemma EstimateIsRatio(alice: seq<Bit>, bob: seq<Bit>, fraction: real, threshold: real)
    requires |alice| == |bob| > 0
    ensures var e := EstimateQber(alice, bob, fraction, threshold);
            e.sampleSize > 0 && e.qber == Ratio(e.errorsFound, e.sampleSize)
  {
  }

  // ----- the length of the key -----

  /** The binary entropy of `q`, zero outside of (0, 1). */
  ghost predicate IsEntropy(log2: real -> real, q: real, h: real) {
    h == if 0.0 < q < 1.0 then -q * log2(q) - (1.0 - q) * log2(1.0 - q) else 0.0
  }

  /** What is left of `n` bits at entropy `h`, without truncating: every bit of entropy costs
      two, and 64 bits are given up. */
  ghost predicate IsSecureLength(n: nat, h: real, length: int) {
    if h <= 0.5 then length as real + 64.0 <= n as real * (1.0 - 2.0 * h) < length as real + 65.0
    else length == -64
  }

  lemma SecureFractionIs(log2: real -> real, q: real, h: real)
    requires IsEntropy(log2, q, h)
    ensures SecureFraction(log2, q) == if h <= 0.5 then 1.0 - 2.0 * h else 0.0
  {
  }

  lemma PortionIs(n: nat, f: real)
    ensures Portion(n, f) == n as real * f
    ensures f >= 0.0 ==> Portion(n, f) >= 0.0
    ensures f == 0.0 ==> Portion(n, f) == 0.0
  {
  }

  lemma SecureLengthLaw(n: nat, log2: real -> real, q: real, h: real)
    requires IsEntropy(log2, q, h)
    ensures IsSecureLength(n, h, SecureBits(n, SecureFraction(log2, q)))
  {
    SecureFractionIs(log2, q, h);
    PortionIs(n, SecureFraction(log2, q));
  }

  lemma SecureLengthUnique(n: nat, h: real, x: int, y: int)
    requires IsSecureLength(n, h, x) && IsSecureLength(n, h, y)
    ensures x == y
  {
  }

  /** Privacy amplification, exactly: when it gives no key, how long a key is, and which
      bits it holds. */
  ghost predicate AmplifiedBy(key: Option<seq<Byte>>, bits: seq<Bit>, target: int, length: int, random: nat -> seq<Bit>)
    requires forall m :: |random(m)| == m
  {
    && (key == None <==> |bits| == 0 || (length < target && length <= 0))
    && (key.Some? && target <= 0 ==> key.value == [])
    && (key.Some? && target > 0 ==>
          var m := if length < target then length else target;
          m > 0 && Toeplitz.HoldsParities(key.value, random(|bits| + m - 1), bits, m))
  }

  lemma AmplifyLaw(bits: seq<Bit>, q: real, target: int, log2: real -> real, toeplitz: nat -> seq<Bit>, h: real, length: int)
    requires forall m :: |toeplitz(m)| == m
    requires IsEntropy(log2, q, h) && IsSecureLength(|bits|, h, length)
    ensures AmplifiedBy(PrivacyAmplify(bits, q, target, log2, toeplitz), bits, target, length, toeplitz)
  {
    SecureLengthLaw(|bits|, log2, q, h);
    SecureLengthUnique(|bits|, h, length, SecureBits(|bits|, SecureFraction(log2, q)));
    AmplifyBits(bits, q, target, log2, toeplitz);
  }

  lemma AmplifyBits(bits: seq<Bit>, q: real, target: int, log2: real -> real, toeplitz: nat -> seq<Bit>)
    requires forall m :: |toeplitz(m)| == m
    ensures AmplifiedBy(PrivacyAmplify(bits, q, target, log2, toeplitz), bits, target,
                        SecureBits(|bits|, SecureFraction(log2, q)), toeplitz)
  {
    var n, secure := |bits|, SecureBits(|bits|, SecureFraction(log2, q));
    var m := if secure < target then secure else target;
    if n > 0 && m > 0 {
      Toeplitz.HashHoldsParities(toeplitz(n + m - 1), bits, m);
    }
  }

  // ----- the round -----

  /** When a round gives a key, and which: enough bits were sifted, few enough of the sampled
      ones differ, and amplification leaves something; the key is the corrected remainder,
      amplified. */
  lemma RoundLaw(cfg: Config, d: RoundDraws, h: real, length: int)
    requires d.Valid(cfg.numRawBits) && cfg.targetKeyLengthBits >= 1
    requires IsEntropy(cfg.log2, RoundEstimate(cfg, d).qber, h)
    requires IsSecureLength(|AliceRemaining(cfg, d)|, h, length)
    ensures var (r, s, e) := (Round(cfg, d), RoundSifted(cfg, d), RoundEstimate(cfg, d));
            && EstimatedBy(e, s.alice, s.bob, cfg.sampleFraction, cfg.qberThreshold)
            && |AliceRemaining(cfg, d)| == |RoundCorrected(cfg, d)| == |s.alice| - e.sampleSize
            && (!r.Aborted() <==>
                  |s.alice| >= 10 && SampledFew(s.alice, s.bob, e.sampleSize, cfg.qberThreshold) && length > 0)
            && (!r.Aborted() ==>
                  && AmplifiedBy(r.key, RoundCorrected(cfg, d), cfg.targetKeyLengthBits, length, d.toeplitz)
                  && r.key.Some? && r.finalKeyBits == 8 * |r.key.value|)
  {
    RoundEstimateLaw(cfg, d);
    RoundKeyLaw(cfg, d, h, length);
    LengthNeedsBits(|AliceRemaining(cfg, d)|, h, length);
    RoundFromStages(cfg, d, length);
  }

  lemma RoundFromStages(cfg: Config, d: RoundDraws, length: int)
    requires d.Valid(cfg.numRawBits) && cfg.targetKeyLengthBits >= 1
    requires length > 0 ==> |RoundCorrected(cfg, d)| > 0
    requires var (s, e) := (RoundSifted(cfg, d), RoundEstimate(cfg, d));
             EstimatedBy(e, s.alice, s.bob, cfg.sampleFraction, cfg.qberThreshold)
    requires AmplifiedBy(RoundKey(cfg, d), RoundCorrected(cfg, d), cfg.targetKeyLengthBits, length, d.toeplitz)
    ensures var (r, s, e) := (Round(cfg, d), RoundSifted(cfg, d), RoundEstimate(cfg, d));
            && (!r.Aborted() <==>
                  |s.alice| >= 10 && SampledFew(s.alice, s.bob, e.sampleSize, cfg.qberThreshold) && length > 0)
            && (!r.Aborted() ==> r.key == RoundKey(cfg, d) && r.key.Some? && r.finalKeyBits == 8 * |r.key.value|)
  {
    RoundStages(cfg, d);
  }

  lemma RoundEstimateLaw(cfg: Config, d: RoundDraws)
    requires d.Valid(cfg.numRawBits)
    ensures var (s, e) := (RoundSifted(cfg, d), RoundEstimate(cfg, d));
            && EstimatedBy(e, s.alice, s.bob, cfg.sampleFraction, cfg.qberThreshold)
            && |AliceRemaining(cfg, d)| == |s.alice| - e.sampleSize
  {
    EstimateLaw(RoundSifted(cfg, d).alice, RoundSifted(cfg, d).bob, cfg.sampleFraction, cfg.qberThreshold);
  }

  lemma RoundKeyLaw(cfg: Config, d: RoundDraws, h: real, length: int)
    requires d.Valid(cfg.numRawBits)
    requires IsEntropy(cfg.log2, RoundEstimate(cfg, d).qber, h)
    requires IsSecureLength(|AliceRemaining(cfg, d)|, h, length)
    ensures AmplifiedBy(RoundKey(cfg, d), RoundCorrected(cfg, d), cfg.targetKeyLengthBits, length, d.toeplitz)
  {
    AmplifyLaw(RoundCorrected(cfg, d), RoundEstimate(cfg, d).qber, cfg.targetKeyLengthBits, cfg.log2, d.toeplitz, h, length);
  }

  lemma LengthNeedsBits(n: nat, h: real, length: int)
    requires IsSecureLength(n, h, length)
    ensures length > 0 ==> n > 0
  {
  }

  /** The string that is amplified: Bob's bits beyond the sample as they are, if no error was
      sampled, else after the four passes against Alice's, with the drawn permutations. */
  lemma CorrectionLaw(cfg: Config, d: RoundDraws, s: nat, natural: seq<nat>)
    returns (c1: seq<Bit>, c2: seq<Bit>, c3: seq<Bit>)
    requires d.Valid(cfg.numRawBits)
    requires RoundEstimate(cfg, d).qber > 0.0 ==> CascadeLaws.FirstSize(RoundEstimate(cfg, d).qber, s)
    requires |natural| == |AliceRemaining(cfg, d)| && forall i :: 0 <= i < |natural| ==> natural[i] == i
    ensures var (sifted, e, n) := (RoundSifted(cfg, d), RoundEstimate(cfg, d), |natural|);
            && e.sampleSize <= |sifted.alice| && n == |sifted.alice| - e.sampleSize
            && var (a, b, r) := (sifted.alice[e.sampleSize..], sifted.bob[e.sampleSize..], RoundCorrected(cfg, d));
               && (e.qber <= 0.0 ==> r == b)
               && (e.qber > 0.0 && n > 0 ==>
                     && |c1| == |c2| == |c3| == n
                     && CascadeLaws.PassObeys(a, b, c1, natural, CascadeLaws.Least(s, n))
                     && CascadeLaws.PassObeys(a, c1, c2, d.permutation(1, n), CascadeLaws.Least(2 * s, n))
                     && CascadeLaws.PassObeys(a, c2, c3, d.permutation(2, n), CascadeLaws.Least(4 * s, n))
                     && CascadeLaws.PassObeys(a, c3, r, d.permutation(3, n), CascadeLaws.Least(8 * s, n)))
  {
    var (a, b, qber) := (AliceRemaining(cfg, d), BobRemaining(cfg, d), RoundEstimate(cfg, d).qber);
    var n := |a|;
    c1, c2, c3 := [], [], [];
    if qber <= 0.0 {
      Cascade.NoEstimateNoCorrection(a, b, qber, d.Permutations(n));
    } else if n > 0 {
      c1, c2, c3 := CascadeLaws.CascadeObeys(a, b, qber, d.Permutations(n), s, natural);
    }
  }

  // ----- the report -----

  ghost function Detected(events: seq<DetectionEvent>): set<nat> {
    set i: nat | i < |events| && events[i].detected
  }

  ghost function DarkCounted(events: seq<DetectionEvent>): set<nat> {
    set i: nat | i < |events| && events[i].isDarkCount
  }

  lemma {:induction false} DetectionsCount(events: seq<DetectionEvent>)
    ensures Detections(events) == |Detected(events)|
  {
    var k := |events| - 1;
    if k < 0 {
      assert Detected(events) == {};
    } else {
      var before := Detected(events[..k]);
      DetectionsCount(events[..k]);
      assert k !in before;
      assert Detected(events) == if events[k].detected then before + {k} else before;
    }
  }

  lemma {:induction false} DarkCountsCount(events: seq<DetectionEvent>)
    ensures DarkCounts(events) == |DarkCounted(events)|
  {
    var k := |events| - 1;
    if k < 0 {
      assert DarkCounted(events) == {};
    } else {
      var before := DarkCounted(events[..k]);
      DarkCountsCount(events[..k]);
      assert k !in before;
      assert DarkCounted(events) == if events[k].isDarkCount then before + {k} else before;
    }
  }

  /** Why a round aborts, if it does. */
  function Reason(detected: nat, sifted: nat, secure: bool, length: int): Option<AbortReason> {
    if detected == 0 then Some(NoPhotonsDetected)
    else if sifted < 10 then Some(InsufficientSiftedBits)
    else if !secure then Some(QberExceedsThreshold)
    else if length <= 0 then Some(InsufficientAfterAmplification)
    else None
  }

  /** The counts of a round's report, and the reason of an abort. */
  ghost predicate Reports(r: RoundResult, cfg: Config, d: RoundDraws, length: int)
    requires d.Valid(cfg.numRawBits)
  {
    var (events, s, e) := (RoundEvents(cfg, d), RoundSifted(cfg, d), RoundEstimate(cfg, d));
    && r.rawBitsGenerated == cfg.numRawBits && r.siftedBits == |s.alice|
    && r.detectionEvents == |Detected(events)|
    && r.darkCountFraction == Ratio(|DarkCounted(events)|, |Detected(events)|)
    && r.qber == (if |s.alice| >= 10 then e.qber else 1.0)
    && (r.isSecure <==> |s.alice| >= 10 && e.isSecure)
    && r.multiPhotonFraction == 0.0 && r.durationSeconds == d.duration
    && r.abortReason == Reason(|Detected(events)|, |s.alice|, e.isSecure, length)
    && (r.Aborted() ==> r.finalKeyBits == 0)
  }

  lemma ReportLaw(cfg: Config, d: RoundDraws, h: real, length: int)
    requires d.Valid(cfg.numRawBits) && cfg.targetKeyLengthBits >= 1
    requires IsEntropy(cfg.log2, RoundEstimate(cfg, d).qber, h)
    requires IsSecureLength(|AliceRemaining(cfg, d)|, h, length)
    ensures Reports(Round(cfg, d), cfg, d, length)
  {
    DetectionsCount(RoundEvents(cfg, d));
    DarkCountsCount(RoundEvents(cfg, d));
    RoundKeyLaw(cfg, d, h, length);
    LengthNeedsBits(|AliceRemaining(cfg, d)|, h, length);
    RoundReports(cfg, d, length);
  }

  lemma RoundReports(cfg: Config, d: RoundDraws, length: int)
    requires d.Valid(cfg.numRawBits)
    requires RoundKey(cfg, d).Some? <==> length > 0
    requires Detections(RoundEvents(cfg, d)) == |Detected(RoundEvents(cfg, d))|
    requires DarkCounts(RoundEvents(cfg, d)) == |DarkCounted(RoundEvents(cfg, d))|
    ensures Reports(Round(cfg, d), cfg, d, length)
  {
    NothingDetectedNothingSifted(cfg, d);
  }

  // ----- where the sifted strings differ -----

  /** Eve measures and resends pulse `i`. */
  predicate Intercepts(d: RoundDraws, i: nat)
    requires d.eve.Some? ==> i < |d.eve.value.draws|
  {
    d.eve.Some? && d.eve.value.draws[i].chance < d.eve.value.interceptionRate
  }

  /** The outcome of a sifted pulse is random: a dark count alone, or Eve resent it in
      another basis than Alice's. */
  predicate RandomOutcome(cfg: Config, d: RoundDraws, i: nat)
    requires i < |d.pulses| && i < |d.aliceBases| && (d.eve.Some? ==> i < |d.eve.value.draws|)
  {
    || (d.pulses[i].dark < cfg.channel.darkCountRate && !PhotonClicks(d.pulses[i]))
    || (Intercepts(d, i) && d.eve.value.draws[i].basis != d.aliceBases[i])
  }

  /** For any channel and any eavesdropper: a sifted bit of Bob's differs from Alice's
      exactly if a random outcome is not Alice's bit, or an outcome that is not random is
      flipped by misalignment. */
  lemma DisagreementLaw(cfg: Config, d: RoundDraws, k: nat)
    requires d.Valid(cfg.numRawBits) && k < |RoundSifted(cfg, d).indices|
    ensures var (s, i) := (RoundSifted(cfg, d), RoundSifted(cfg, d).indices[k]);
            && i < cfg.numRawBits && d.aliceBases[i] == d.bobBases[i] && s.alice[k] == d.aliceBits[i]
            && (s.alice[k] != s.bob[k] <==>
                if RandomOutcome(cfg, d, i) then d.pulses[i].randomBit != d.aliceBits[i]
                else d.pulses[i].flip < cfg.channel.misalignmentErrorProb)
  {
    var n, s, p, events := cfg.numRawBits, RoundSifted(cfg, d), d.Sent(cfg.numRawBits), RoundEvents(cfg, d);
    SiftIsSifted(d.aliceBits, d.aliceBases, d.bobBases, events, n);
    var i := s.indices[k];
    assert i in s.indices;
    assert Matches(d.aliceBases, d.bobBases, events, i);
    DetectionLaw(cfg.channel, p, n, i);
    SentLaw(cfg, d, i);
  }

  lemma SentLaw(cfg: Config, d: RoundDraws, i: nat)
    requires d.Valid(cfg.numRawBits) && i < cfg.numRawBits
    ensures var p := d.Sent(cfg.numRawBits);
            && p.bobBases == d.bobBases && p.draws == d.pulses
            && p.bases[i] == (if Intercepts(d, i) then d.eve.value.draws[i].basis else d.aliceBases[i])
            && p.bits[i] == (if Intercepts(d, i) && d.eve.value.draws[i].basis != d.aliceBases[i]
                             then d.eve.value.draws[i].bit else d.aliceBits[i])
  {
  }
}
