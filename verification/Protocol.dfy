/** One BB84 round (shared/bb84/protocol.py), from pulses to key. */
module Protocol {
  import opened Wrappers
  import opened Bits
  import opened PhysicalLayer
  import Cascade
  import Toeplitz

  const MIN_SIFTED_BITS: nat := 10
  const SECURITY_PARAMETER: int := 64

  /** `log2` stands for the library logarithm; only its sign below one is used. */
  datatype Config = Config(
    numRawBits: nat,
    sampleFraction: real,
    qberThreshold: real,
    targetKeyLengthBits: int,
    channel: ChannelParameters,
    log2: real -> real)
  {
    ghost predicate Valid() {
      forall x: real :: 0.0 < x < 1.0 ==> log2(x) <= 0.0
    }
  }

  // ----- the eavesdropper -----

  datatype EveDraws = EveDraws(chance: Unit, basis: Basis, bit: Bit)

  datatype Eve = Eve(interceptionRate: real, draws: seq<EveDraws>)

  /** `intercept_resend`. */
  function InterceptResend(bit: Bit, aliceBasis: Basis, draws: EveDraws): (Bit, Basis) {
    (if draws.basis == aliceBasis then bit else draws.bit, draws.basis)
  }

  function Resend(rate: real, bit: Bit, basis: Basis, draws: EveDraws): (Bit, Basis) {
    if draws.chance < rate then InterceptResend(bit, basis, draws) else (bit, basis)
  }

  function ResentBits(bits: seq<Bit>, bases: seq<Basis>, eve: Eve): (r: seq<Bit>)
    requires |bits| == |bases| == |eve.draws|
    ensures |r| == |bits|
  {
    seq(|bits|, i requires 0 <= i < |bits| => Resend(eve.interceptionRate, bits[i], bases[i], eve.draws[i]).0)
  }

  function ResentBases(bits: seq<Bit>, bases: seq<Basis>, eve: Eve): (r: seq<Basis>)
    requires |bits| == |bases| == |eve.draws|
    ensures |r| == |bits|
  {
    seq(|bits|, i requires 0 <= i < |bits| => Resend(eve.interceptionRate, bits[i], bases[i], eve.draws[i]).1)
  }

  /** The interception loop of `run_round`. */
  method Intercept(bits: seq<Bit>, bases: seq<Basis>, eve: Eve) returns (eveBits: seq<Bit>, eveBases: seq<Basis>)
    requires |bits| == |bases| == |eve.draws|
    ensures eveBits == ResentBits(bits, bases, eve) && eveBases == ResentBases(bits, bases, eve)
    ensures forall i :: 0 <= i < |bits| ==>
      var (draws, hit) := (eve.draws[i], eve.draws[i].chance < eve.interceptionRate);
      && eveBases[i] == (if hit then draws.basis else bases[i])
      && eveBits[i] == if hit && draws.basis != bases[i] then draws.bit else bits[i]
  {
    eveBits, eveBases := [], [];
    for i := 0 to |bits|
      invariant |eveBits| == |eveBases| == i
      invariant forall k :: 0 <= k < i ==>
        (eveBits[k], eveBases[k]) == Resend(eve.interceptionRate, bits[k], bases[k], eve.draws[k])
    {
      if eve.draws[i].chance < eve.interceptionRate {
        var (eveBit, eveBasis) := InterceptResend(bits[i], bases[i], eve.draws[i]);
        eveBits, eveBases := eveBits + [eveBit], eveBases + [eveBasis];
      } else {
        eveBits, eveBases := eveBits + [bits[i]], eveBases + [bases[i]];
      }
    }
  }

  // ----- sifting -----

  datatype SiftedKey = SiftedKey(alice: seq<Bit>, bob: seq<Bit>, indices: seq<nat>)

  function Ratio(x: nat, y: nat): real {
    if y > 0 then x as real / y as real else 0.0
  }

  predicate Matches(aliceBases: seq<Basis>, bobBases: seq<Basis>, events: seq<DetectionEvent>, i: nat)
    requires |aliceBases| == |bobBases| == |events| && i < |events|
  {
    events[i].detected && aliceBases[i] == bobBases[i]
  }

  /** What sifting promises: the indices are exactly the matching detections, in order,
      and the two strings are Alice's and Bob's bits at those indices. */
  ghost predicate IsSifted(s: SiftedKey, aliceBits: seq<Bit>, aliceBases: seq<Basis>, bobBases: seq<Basis>,
                           events: seq<DetectionEvent>, upTo: nat)
    requires |aliceBits| == |aliceBases| == |bobBases| == |events| && upTo <= |events|
  {
    && |s.alice| == |s.bob| == |s.indices|
    && (forall k :: 0 <= k < |s.indices| ==> s.indices[k] < upTo)
    && (forall j, k :: 0 <= j < k < |s.indices| ==> s.indices[j] < s.indices[k])
    && (forall i: nat :: i < upTo ==> (i in s.indices <==> Matches(aliceBases, bobBases, events, i)))
    && (forall k :: 0 <= k < |s.indices| ==> s.alice[k] == aliceBits[s.indices[k]])
    && (forall k :: 0 <= k < |s.indices| ==> events[s.indices[k]].measuredBit == Some(s.bob[k]))
  }

  /** `_sift_keys` on the first `upTo` events. */
  function Sift(aliceBits: seq<Bit>, aliceBases: seq<Basis>, bobBases: seq<Basis>,
                events: seq<DetectionEvent>, upTo: nat): (s: SiftedKey)
    requires |aliceBits| == |aliceBases| == |bobBases| == |events| && upTo <= |events|
    requires Readable(events)
    ensures |s.alice| == |s.bob| == |s.indices| <= upTo
  {
    if upTo == 0 then SiftedKey([], [], [])
    else
      var i := upTo - 1;
      var s := Sift(aliceBits, aliceBases, bobBases, events, i);
      if Matches(aliceBases, bobBases, events, i)
      then SiftedKey(s.alice + [aliceBits[i]], s.bob + [events[i].measuredBit.value], s.indices + [i])
      else s
  }

  lemma {:induction false} SiftIsSifted(aliceBits: seq<Bit>, aliceBases: seq<Basis>, bobBases: seq<Basis>,
                                        events: seq<DetectionEvent>, upTo: nat)
    requires |aliceBits| == |aliceBases| == |bobBases| == |events| && upTo <= |events|
    requires Readable(events)
    ensures IsSifted(Sift(aliceBits, aliceBases, bobBases, events, upTo), aliceBits, aliceBases, bobBases, events, upTo)
    decreases upTo
  {
    if upTo > 0 {
      var i := upTo - 1;
      var before := Sift(aliceBits, aliceBases, bobBases, events, i);
      SiftIsSifted(aliceBits, aliceBases, bobBases, events, i);
      SiftedNext(before, Sift(aliceBits, aliceBases, bobBases, events, upTo), aliceBits, aliceBases, bobBases, events, i);
    }
  }

  /** One more event. */
  lemma SiftedNext(before: SiftedKey, after: SiftedKey, aliceBits: seq<Bit>, aliceBases: seq<Basis>, bobBases: seq<Basis>,
                   events: seq<DetectionEvent>, i: nat)
    requires |aliceBits| == |aliceBases| == |bobBases| == |events| && i < |events| && Readable(events)
    requires IsSifted(before, aliceBits, aliceBases, bobBases, events, i)
    requires after == if Matches(aliceBases, bobBases, events, i)
                      then SiftedKey(before.alice + [aliceBits[i]], before.bob + [events[i].measuredBit.value], before.indices + [i])
                      else before
    ensures IsSifted(after, aliceBits, aliceBases, bobBases, events, i + 1)
  {
    forall j: nat | j < i + 1 ensures j in after.indices <==> Matches(aliceBases, bobBases, events, j) {
      assert j < i ==> (j in before.indices <==> Matches(aliceBases, bobBases, events, j));
    }
  }

  lemma {:induction false} SiftedAtMostDetections(aliceBits: seq<Bit>, aliceBases: seq<Basis>, bobBases: seq<Basis>,
                                                  events: seq<DetectionEvent>, upTo: nat)
    requires |aliceBits| == |aliceBases| == |bobBases| == |events| && upTo <= |events|
    requires Readable(events)
    ensures |Sift(aliceBits, aliceBases, bobBases, events, upTo).alice| <= Detections(events[..upTo])
    ensures aliceBases[..upTo] == bobBases[..upTo] ==>
              |Sift(aliceBits, aliceBases, bobBases, events, upTo).alice| == Detections(events[..upTo])
  {
    if upTo > 0 {
      SiftedAtMostDetections(aliceBits, aliceBases, bobBases, events, upTo - 1);
      assert events[..upTo][..upTo - 1] == events[..upTo - 1];
      if aliceBases[..upTo] == bobBases[..upTo] {
        assert aliceBases[..upTo - 1] == aliceBases[..upTo][..upTo - 1];
        assert bobBases[..upTo - 1] == bobBases[..upTo][..upTo - 1];
        assert aliceBases[upTo - 1] == aliceBases[..upTo][upTo - 1] == bobBases[..upTo][upTo - 1];
      }
    }
  }

  /** Nothing is sifted where the bases differ. */
  lemma {:induction false} SiftStops(aliceBits: seq<Bit>, aliceBases: seq<Basis>, bobBases: seq<Basis>,
                                     events: seq<DetectionEvent>, t: nat, k: nat)
    requires |aliceBits| == |aliceBases| == |bobBases| == |events| && t <= k <= |events|
    requires Readable(events)
    requires forall i :: t <= i < k ==> aliceBases[i] != bobBases[i]
    ensures Sift(aliceBits, aliceBases, bobBases, events, k) == Sift(aliceBits, aliceBases, bobBases, events, t)
  {
    if t < k {
      SiftStops(aliceBits, aliceBases, bobBases, events, t, k - 1);
    }
  }

  /** The sifting loop. */
  method SiftKeys(aliceBits: seq<Bit>, aliceBases: seq<Basis>, bobBases: seq<Basis>, events: seq<DetectionEvent>)
    returns (s: SiftedKey, rawKeyRate: real, detectionRate: real)
    requires |aliceBits| == |aliceBases| == |bobBases| == |events| && Readable(events)
    ensures rawKeyRate == Ratio(|s.alice|, |events|) && detectionRate == Ratio(Detections(events), |events|)
    ensures IsSifted(s, aliceBits, aliceBases, bobBases, events, |events|)
    ensures s == Sift(aliceBits, aliceBases, bobBases, events, |events|)
  {
    var aliceSifted: seq<Bit>, bobSifted: seq<Bit>, matchingIndices: seq<nat> := [], [], [];
    for i := 0 to |events|
      invariant SiftedKey(aliceSifted, bobSifted, matchingIndices) == Sift(aliceBits, aliceBases, bobBases, events, i)
    {
      if events[i].detected && aliceBases[i] == bobBases[i] {
        aliceSifted := aliceSifted + [aliceBits[i]];
        bobSifted := bobSifted + [events[i].measuredBit.value];
        matchingIndices := matchingIndices + [i];
      }
    }
    s := SiftedKey(aliceSifted, bobSifted, matchingIndices);
    rawKeyRate, detectionRate := Ratio(|aliceSifted|, |events|), Ratio(Detections(events), |events|);
    SiftIsSifted(aliceBits, aliceBases, bobBases, events, |events|);
  }

  // ----- error estimation -----

  function SampleSize(len: nat, fraction: real): (s: nat)
    ensures s <= len && (len > 0 ==> s >= 1)
  {
    Clip(Truncate(Portion(len, fraction)), len)
  }

  function Portion(len: nat, fraction: real): real {
    len as real * fraction
  }

  /** `min(max(1, t), len)`. */
  function Clip(t: int, len: nat): (s: nat)
    ensures s <= len && (len > 0 ==> s >= 1)
  {
    var s := if t > 1 then t else 1;
    if s < len then s else len
  }

  datatype QberEstimate = QberEstimate(qber: real, sampleSize: nat, errorsFound: nat, isSecure: bool)

  /** `_estimate_qber`. */
  function EstimateQber(alice: seq<Bit>, bob: seq<Bit>, fraction: real, threshold: real): QberEstimate
    requires |alice| == |bob|
  {
    var size := SampleSize(|alice|, fraction);
    var errors := |Cascade.Wrong(alice[..size], bob[..size])|;
    var qber := if size > 0 then errors as real / size as real else 0.0;
    QberEstimate(qber, size, errors, qber < threshold)
  }

  /** The estimate is zero exactly for a clean sample. */
  lemma CleanEstimate(alice: seq<Bit>, bob: seq<Bit>, fraction: real, threshold: real)
    requires |alice| == |bob|
    ensures var e := EstimateQber(alice, bob, fraction, threshold);
            e.qber >= 0.0 && (e.qber == 0.0 <==> e.errorsFound == 0)
  {
    var e := EstimateQber(alice, bob, fraction, threshold);
    if e.sampleSize > 0 {
      QuotientSign(e.errorsFound as real, e.sampleSize as real);
    }
  }

  ghost predicate FewErrors(e: QberEstimate, threshold: real) {
    e.errorsFound as real < threshold * e.sampleSize as real
  }

  /** A secure estimate counts fewer errors than threshold * sample size. */
  lemma SecureEstimate(alice: seq<Bit>, bob: seq<Bit>, fraction: real, threshold: real)
    requires |alice| == |bob| > 0
    requires EstimateQber(alice, bob, fraction, threshold).isSecure
    ensures FewErrors(EstimateQber(alice, bob, fraction, threshold), threshold)
  {
    var e := EstimateQber(alice, bob, fraction, threshold);
    QuotientBelow(e.errorsFound as real, e.sampleSize as real, threshold);
  }

  lemma QuotientSign(x: real, y: real)
    requires 0.0 <= x && y > 0.0
    ensures 0.0 <= x / y
    ensures x / y == 0.0 <==> x == 0.0
  {
  }

  lemma QuotientBelow(x: real, y: real, t: real)
    requires y > 0.0 && x / y < t
    ensures x < t * y
  {
    ScaleStrictly(x / y, t, y);
  }

  lemma ScaleStrictly(a: real, b: real, y: real)
    requires a < b && y > 0.0
    ensures a * y < b * y
  {
  }

  // ----- privacy amplification -----

  /** `binary_entropy`. */
  function BinaryEntropy(log2: real -> real, p: real): real {
    if p <= 0.0 || p >= 1.0 then 0.0 else -p * log2(p) - (1.0 - p) * log2(1.0 - p)
  }

  lemma EntropyNonNegative(log2: real -> real, p: real)
    requires forall x: real :: 0.0 < x < 1.0 ==> log2(x) <= 0.0
    ensures BinaryEntropy(log2, p) >= 0.0
  {
    if 0.0 < p < 1.0 {
      ProductNonPositive(p, log2(p));
      ProductNonPositive(1.0 - p, log2(1.0 - p));
    }
  }

  lemma ProductNonPositive(x: real, y: real)
    requires x >= 0.0 && y <= 0.0
    ensures x * y <= 0.0
  {
  }

  function SecureFraction(log2: real -> real, qber: real): (f: real)
    ensures f >= 0.0
  {
    var h := if qber > 0.0 then BinaryEntropy(log2, qber) else 0.0;
    if 1.0 - 2.0 * h > 0.0 then 1.0 - 2.0 * h else 0.0
  }

  /** `int(n * secure_fraction) - security_parameter`. */
  function SecureBits(n: nat, fraction: real): int {
    Truncate(Portion(n, fraction)) - SECURITY_PARAMETER
  }

  /** The hash length, or None where `_privacy_amplify` gives up. */
  function OutputLength(n: nat, fraction: real, target: int): Option<int> {
    var secure := SecureBits(n, fraction);
    if n == 0 then None
    else if secure < target then (if secure <= 0 then None else Some(secure))
    else Some(target)
  }

  /** Never more bits than went in, less the security parameter, and exactly that many
      when no error was estimated. */
  lemma SecureBitsBound(n: nat, log2: real -> real, qber: real)
    requires forall x: real :: 0.0 < x < 1.0 ==> log2(x) <= 0.0
    ensures SecureFraction(log2, qber) <= 1.0
    ensures SecureBits(n, SecureFraction(log2, qber)) <= n - SECURITY_PARAMETER
    ensures qber <= 0.0 ==> SecureBits(n, SecureFraction(log2, qber)) == n - SECURITY_PARAMETER
  {
    EntropyNonNegative(log2, qber);
    TruncateScaled(n, SecureFraction(log2, qber));
  }

  lemma TruncateScaled(n: nat, f: real)
    requires 0.0 <= f <= 1.0
    ensures 0 <= Truncate(Portion(n, f)) <= n
    ensures f == 1.0 ==> Truncate(Portion(n, f)) == n
  {
    ScaleDown(n as real, f);
  }

  lemma ScaleDown(x: real, f: real)
    requires x >= 0.0 && 0.0 <= f <= 1.0
    ensures 0.0 <= x * f <= x
  {
  }

  /** `_privacy_amplify`; `toeplitz` draws a vector of the requested length. */
  function PrivacyAmplify(bits: seq<Bit>, qber: real, target: int, log2: real -> real, toeplitz: nat -> seq<Bit>)
    : Option<seq<Byte>>
    requires forall m :: |toeplitz(m)| == m
  {
    var n := |bits|;
    match OutputLength(n, SecureFraction(log2, qber), target)
    case None => None
    case Some(m) => Some(if m <= 0 then [] else Toeplitz.Hash(toeplitz(n + m - 1), bits, m))
  }

  // ----- a round -----

  /** Everything a round draws, and the seconds that the clock measures over it. The generators that are asked for data of a size known
      only during the round are functions of that size. */
  datatype RoundDraws = RoundDraws(
    aliceBits: seq<Bit>,
    aliceBases: seq<Basis>,
    bobBases: seq<Basis>,
    eve: Option<Eve>,
    pulses: seq<PulseDraws>,
    permutation: (nat, nat) -> seq<nat>,
    toeplitz: nat -> seq<Bit>,
    duration: real)
  {
    ghost predicate Valid(n: nat) {
      && |aliceBits| == |aliceBases| == |bobBases| == |pulses| == n
      && (eve.Some? ==> |eve.value.draws| == n)
      && (forall i :: 0 <= i < n ==> pulses[i].surviving <= pulses[i].photons)
      && (forall pass, m :: Cascade.IsPermutation(permutation(pass, m), m))
      && (forall m :: |toeplitz(m)| == m)
    }

    /** The channel can produce every pulse's draws. */
    ghost predicate Possible(channel: ChannelParameters) {
      forall i :: 0 <= i < |pulses| ==> PossiblePulse(channel, pulses[i])
    }

    function Sent(n: nat): (p: Pulses)
      requires Valid(n)
      ensures p.Valid() && |p.bits| == n
    {
      match eve
      case None => Pulses(aliceBits, aliceBases, bobBases, pulses)
      case Some(e) =>
        Pulses(ResentBits(aliceBits, aliceBases, e), ResentBases(aliceBits, aliceBases, e), bobBases, pulses)
    }

    function Permutations(m: nat): (perms: seq<seq<nat>>)
      requires forall pass, m :: Cascade.IsPermutation(permutation(pass, m), m)
      ensures Cascade.ValidPermutations(perms, m)
    {
      [permutation(1, m), permutation(2, m), permutation(3, m)]
    }
  }

  datatype AbortReason =
    | NoPhotonsDetected
    | InsufficientSiftedBits
    | QberExceedsThreshold
    | InsufficientAfterAmplification

  datatype RoundResult = RoundResult(
    key: Option<seq<Byte>>,
    qber: real,
    isSecure: bool,
    rawBitsGenerated: nat,
    siftedBits: nat,
    finalKeyBits: nat,
    detectionEvents: nat,
    darkCountFraction: real,
    multiPhotonFraction: real,
    abortReason: Option<AbortReason>,
    durationSeconds: real)
  {
    predicate Aborted() {
      abortReason.Some?
    }
  }

  function RoundEvents(cfg: Config, d: RoundDraws): (events: seq<DetectionEvent>)
    requires d.Valid(cfg.numRawBits)
    ensures |events| == cfg.numRawBits && Readable(events)
  {
    Events(cfg.channel, d.Sent(cfg.numRawBits))
  }

  function RoundSifted(cfg: Config, d: RoundDraws): (s: SiftedKey)
    requires d.Valid(cfg.numRawBits)
    ensures |s.alice| == |s.bob| == |s.indices| <= cfg.numRawBits
  {
    Sift(d.aliceBits, d.aliceBases, d.bobBases, RoundEvents(cfg, d), cfg.numRawBits)
  }

  function RoundEstimate(cfg: Config, d: RoundDraws): QberEstimate
    requires d.Valid(cfg.numRawBits)
  {
    var s := RoundSifted(cfg, d);
    EstimateQber(s.alice, s.bob, cfg.sampleFraction, cfg.qberThreshold)
  }

  /** Alice's and Bob's bits that were not sacrificed. */
  function AliceRemaining(cfg: Config, d: RoundDraws): seq<Bit>
    requires d.Valid(cfg.numRawBits)
  {
    RoundSifted(cfg, d).alice[RoundEstimate(cfg, d).sampleSize..]
  }

  function BobRemaining(cfg: Config, d: RoundDraws): (b: seq<Bit>)
    requires d.Valid(cfg.numRawBits)
    ensures |b| == |AliceRemaining(cfg, d)|
  {
    RoundSifted(cfg, d).bob[RoundEstimate(cfg, d).sampleSize..]
  }

  function RoundCorrected(cfg: Config, d: RoundDraws): (c: seq<Bit>)
    requires d.Valid(cfg.numRawBits)
    ensures |c| == |AliceRemaining(cfg, d)|
  {
    var a, b := AliceRemaining(cfg, d), BobRemaining(cfg, d);
    Cascade.Reconcile(a, b, RoundEstimate(cfg, d).qber, d.Permutations(|a|))
  }

  function RoundKey(cfg: Config, d: RoundDraws): Option<seq<Byte>>
    requires d.Valid(cfg.numRawBits)
  {
    PrivacyAmplify(RoundCorrected(cfg, d), RoundEstimate(cfg, d).qber, cfg.targetKeyLengthBits, cfg.log2, d.toeplitz)
  }

  /** `run_round`, as a function of the configuration and the draws. */
  function Round(cfg: Config, d: RoundDraws): (r: RoundResult)
    requires d.Valid(cfg.numRawBits)
    ensures r.Aborted() <==> r.key.None?
  {
    var n, events := cfg.numRawBits, RoundEvents(cfg, d);
    var detected := Detections(events);
    if detected == 0 then RoundResult(None, 1.0, false, n, 0, 0, 0, 0.0, 0.0, Some(NoPhotonsDetected), d.duration)
    else
      var dark := DarkCounts(events) as real / detected as real;
      var sifted := |RoundSifted(cfg, d).alice|;
      if sifted < MIN_SIFTED_BITS
      then RoundResult(None, 1.0, false, n, sifted, 0, detected, dark, 0.0, Some(InsufficientSiftedBits), d.duration)
      else
        var estimate := RoundEstimate(cfg, d);
        if !estimate.isSecure
        then RoundResult(None, estimate.qber, false, n, sifted, 0, detected, dark, 0.0, Some(QberExceedsThreshold), d.duration)
        else
          match RoundKey(cfg, d)
          case None => RoundResult(None, estimate.qber, true, n, sifted, 0, detected, dark, 0.0, Some(InsufficientAfterAmplification), d.duration)
          case Some(key) => RoundResult(Some(key), estimate.qber, true, n, sifted, 8 * |key|, detected, dark, 0.0, None, d.duration)
  }

  /** `run_round`, step by step. */
  method RunRound(cfg: Config, d: RoundDraws) returns (r: RoundResult)
    requires d.Valid(cfg.numRawBits)
    ensures r == Round(cfg, d)
    ensures r.Aborted() <==> r.key.None?
  {
    var n := cfg.numRawBits;
    var detector := new SinglePhotonDetector(cfg.channel);
    var events: seq<DetectionEvent>;
    match d.eve {
      case Some(eve) =>
        var eveBits, eveBases := Intercept(d.aliceBits, d.aliceBases, eve);
        events := SimulateNPulses(detector, Pulses(eveBits, eveBases, d.bobBases, d.pulses));
      case None =>
        events := SimulateNPulses(detector, Pulses(d.aliceBits, d.aliceBases, d.bobBases, d.pulses));
    }
    assert events == RoundEvents(cfg, d);
    var detectedCount, darkCountTotal := Detections(events), DarkCounts(events);
    if detectedCount == 0 {
      return RoundResult(None, 1.0, false, n, 0, 0, 0, 0.0, 0.0, Some(NoPhotonsDetected), d.duration);
    }
    var darkFraction := darkCountTotal as real / detectedCount as real;
    var sifted, _, _ := SiftKeys(d.aliceBits, d.aliceBases, d.bobBases, events);
    var siftedBits := |sifted.alice|;
    if siftedBits < MIN_SIFTED_BITS {
      return RoundResult(None, 1.0, false, n, siftedBits, 0, detectedCount, darkFraction, 0.0, Some(InsufficientSiftedBits), d.duration);
    }
    var estimate := EstimateQber(sifted.alice, sifted.bob, cfg.sampleFraction, cfg.qberThreshold);
    if !estimate.isSecure {
      return RoundResult(None, estimate.qber, false, n, siftedBits, 0, detectedCount, darkFraction, 0.0, Some(QberExceedsThreshold), d.duration);
    }
    var aliceRemaining, bobRemaining := sifted.alice[estimate.sampleSize..], sifted.bob[estimate.sampleSize..];
    var corrected := Cascade.ErrorCorrectCascade(aliceRemaining, bobRemaining, estimate.qber, d.Permutations(|aliceRemaining|));
    var key := Amplify(corrected[..], estimate.qber, cfg.targetKeyLengthBits, cfg.log2, d.toeplitz);
    assert key == RoundKey(cfg, d);
    match key {
      case None =>
        r := RoundResult(None, estimate.qber, true, n, siftedBits, 0, detectedCount, darkFraction, 0.0, Some(InsufficientAfterAmplification), d.duration);
      case Some(k) =>
        r := RoundResult(Some(k), estimate.qber, true, n, siftedBits, 8 * |k|, detectedCount, darkFraction, 0.0, None, d.duration);
    }
  }

  method Amplify(bits: seq<Bit>, qber: real, target: int, log2: real -> real, toeplitz: nat -> seq<Bit>)
    returns (key: Option<seq<Byte>>)
    requires forall m :: |toeplitz(m)| == m
    ensures key == PrivacyAmplify(bits, qber, target, log2, toeplitz)
  {
    var n := |bits|;
    if n == 0 {
      return None;
    }
    var maxSecureBits := SecureBits(n, SecureFraction(log2, qber));
    var outputLength: int;
    if maxSecureBits < target {
      if maxSecureBits <= 0 {
        return None;
      }
      outputLength := maxSecureBits;
    } else {
      outputLength := target;
    }
    var hash := Toeplitz.ToeplitzHash(bits, outputLength, if outputLength > 0 then toeplitz(n + outputLength - 1) else []);
    key := Some(hash);
  }
}
