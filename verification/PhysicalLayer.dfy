/** The optical chain (shared/bb84/physical_layer.py). Every random draw is an input. */
module PhysicalLayer {
  import opened Wrappers
  import opened Bits

  datatype Basis = Rectilinear | Diagonal

  datatype Polarization = H | V | D | A

  function Polarize(bit: Bit, basis: Basis): Polarization {
    if basis == Rectilinear then (if bit == 0 then H else V) else (if bit == 0 then D else A)
  }

  function Depolarize(p: Polarization): (Bit, Basis) {
    match p
    case H => (0, Rectilinear)
    case V => (1, Rectilinear)
    case D => (0, Diagonal)
    case A => (1, Diagonal)
  }

  /** What `rng.random()` returns. */
  type Unit = r: real | 0.0 <= r < 1.0

  /** `transmissionProb` is what attenuation and fiber length leave, `misalignmentErrorProb`
      the squared sine of the misalignment angle. */
  datatype ChannelParameters = ChannelParameters(
    sourceIntensityMu: real,
    transmissionProb: real,
    detectorEfficiency: real,
    darkCountRate: real,
    deadTimeNs: real,
    afterpulseProbability: real,
    misalignmentErrorProb: real)

  /** The draws of one pulse: Poisson and two binomial counts, three uniform reals and
      the bit used where the outcome is random. */
  datatype PulseDraws = PulseDraws(
    photons: nat,
    surviving: nat,
    clicks: nat,
    afterpulse: Unit,
    dark: Unit,
    flip: Unit,
    randomBit: Bit)

  /** The photon counts that the Poisson source and the two binomial losses can produce. */
  predicate PossiblePulse(params: ChannelParameters, draws: PulseDraws) {
    && draws.clicks <= draws.surviving <= draws.photons
    && (draws.photons > 0 ==> params.sourceIntensityMu > 0.0)
    && (draws.surviving > 0 ==> params.transmissionProb > 0.0)
    && (params.transmissionProb == 1.0 ==> draws.surviving == draws.photons)
    && (draws.clicks > 0 ==> params.detectorEfficiency > 0.0)
    && (params.detectorEfficiency == 1.0 ==> draws.clicks == draws.surviving)
  }

  predicate PhotonsClick(params: ChannelParameters) {
    params.sourceIntensityMu > 0.0 && params.transmissionProb > 0.0 && params.detectorEfficiency > 0.0
  }

  /** Photons or dark counts can trigger the detector. */
  predicate CanClick(params: ChannelParameters) {
    PhotonsClick(params) || params.darkCountRate > 0.0
  }

  /** A photon or a dark count does trigger it, once it has recovered. */
  predicate Triggers(params: ChannelParameters, draws: PulseDraws) {
    (draws.surviving > 0 && draws.clicks > 0) || draws.dark < params.darkCountRate
  }

  datatype DetectionEvent = DetectionEvent(
    pulseIndex: int,
    detected: bool,
    measuredBit: Option<Bit>,
    basis: Basis,
    isDarkCount: bool,
    isAfterpulse: bool)

  /** Python's `int(x)`: truncation toward zero. */
  function Truncate(x: real): int {
    if x >= 0.0 then x.Floor else -((-x).Floor)
  }

  function DeadTimePulses(deadTimeNs: real): (d: nat)
    ensures d >= 1
    ensures deadTimeNs >= 1.0 ==> d as real <= deadTimeNs < d as real + 1.0
    ensures deadTimeNs < 1.0 ==> d == 1
  {
    var t := Truncate(deadTimeNs);
    if t > 1 then t else 1
  }

  function Silence(index: int, basis: Basis): DetectionEvent {
    DetectionEvent(index, false, None, basis, false, false)
  }

  predicate InDeadTime(last: Option<int>, index: int, deadTime: nat) {
    last.Some? && index - last.value < deadTime
  }

  predicate IsAfterpulse(params: ChannelParameters, last: Option<int>, index: int, draw: Unit) {
    && last.Some?
    && index - last.value < 3 * DeadTimePulses(params.deadTimeNs)
    && draw < params.afterpulseProbability
  }

  /** `detect`: the event and the new index of the last detection. */
  function Detect(params: ChannelParameters, last: Option<int>, photons: nat, sent: Polarization,
                  basis: Basis, index: int, draws: PulseDraws): (DetectionEvent, Option<int>)
  {
    if InDeadTime(last, index, DeadTimePulses(params.deadTimeNs)) then (Silence(index, basis), last)
    else
      var afterpulse := IsAfterpulse(params, last, index, draws.afterpulse);
      var dark := draws.dark < params.darkCountRate;
      var photon := photons > 0 && draws.clicks > 0;
      if !(photon || dark || afterpulse) then (Silence(index, basis), last)
      else
        var (sentBit, sentBasis) := Depolarize(sent);
        var measured: Bit :=
          if dark && !photon then draws.randomBit
          else if basis == sentBasis then
            (if draws.flip < params.misalignmentErrorProb then 1 - sentBit else sentBit)
          else draws.randomBit;
        (DetectionEvent(index, true, Some(measured), basis, dark && !photon, afterpulse && !photon && !dark),
         Some(index))
  }

  /** What Alice (or Eve) sends, how Bob measures, and the draws, pulse by pulse. */
  datatype Pulses = Pulses(bits: seq<Bit>, bases: seq<Basis>, bobBases: seq<Basis>, draws: seq<PulseDraws>) {
    predicate Valid() {
      && |bits| == |bases| == |bobBases| == |draws|
      && forall i :: 0 <= i < |draws| ==> draws[i].surviving <= draws[i].photons
    }
  }

  /** `simulate_pulse`: emit, transmit, detect. */
  function Pulse(params: ChannelParameters, last: Option<int>, p: Pulses, i: nat): (DetectionEvent, Option<int>)
    requires p.Valid() && i < |p.bits|
  {
    var arriving := if p.draws[i].photons == 0 then 0 else p.draws[i].surviving;
    Detect(params, last, arriving, Polarize(p.bits[i], p.bases[i]), p.bobBases[i], i, p.draws[i])
  }

  /** Every detection carries a bit. */
  ghost predicate Readable(events: seq<DetectionEvent>) {
    forall i :: 0 <= i < |events| && events[i].detected ==> events[i].measuredBit.Some?
  }

  /** The events of the first `k` pulses, and the detector's memory after them. */
  function Run(params: ChannelParameters, last: Option<int>, p: Pulses, k: nat): (r: (seq<DetectionEvent>, Option<int>))
    requires p.Valid() && k <= |p.bits|
    ensures |r.0| == k && Readable(r.0)
  {
    if k == 0 then ([], last)
    else
      var (events, memory) := Run(params, last, p, k - 1);
      var (event, memory') := Pulse(params, memory, p, k - 1);
      (events + [event], memory')
  }

  /** `simulate_n_pulses` on a fresh simulator. */
  function Events(params: ChannelParameters, p: Pulses): (events: seq<DetectionEvent>)
    requires p.Valid()
    ensures |events| == |p.bits| && Readable(events)
  {
    Run(params, None, p, |p.bits|).0
  }

  function Detections(events: seq<DetectionEvent>): nat {
    if |events| == 0 then 0
    else Detections(events[..|events| - 1]) + (if events[|events| - 1].detected then 1 else 0)
  }

  function DarkCounts(events: seq<DetectionEvent>): nat {
    if |events| == 0 then 0
    else DarkCounts(events[..|events| - 1]) + (if events[|events| - 1].isDarkCount then 1 else 0)
  }

  class SinglePhotonDetector {
    const params: ChannelParameters
    const deadTimePulses: nat
    var lastDetectionIndex: Option<int>

    ghost predicate Valid() {
      deadTimePulses == DeadTimePulses(params.deadTimeNs)
    }

    constructor (params: ChannelParameters)
      ensures Valid() && this.params == params && lastDetectionIndex == None
    {
      this.params := params;
      deadTimePulses := DeadTimePulses(params.deadTimeNs);
      lastDetectionIndex := None;
    }

    method Attempt(photons: nat, sent: Polarization, basis: Basis, index: int, draws: PulseDraws)
      returns (event: DetectionEvent)
      requires Valid()
      modifies this
      ensures (event, lastDetectionIndex) ==
              Detect(params, old(lastDetectionIndex), photons, sent, basis, index, draws)
    {
      if lastDetectionIndex.Some? && index - lastDetectionIndex.value < deadTimePulses {
        return Silence(index, basis);
      }
      var isAfterpulse := false;
      if lastDetectionIndex.Some? {
        var gap := index - lastDetectionIndex.value;
        if gap < deadTimePulses * 3 && draws.afterpulse < params.afterpulseProbability {
          isAfterpulse := true;
        }
      }
      var isDarkCount := draws.dark < params.darkCountRate;
      var photonDetected := false;
      if photons > 0 {
        photonDetected := draws.clicks > 0;
      }
      var clicked := photonDetected || isDarkCount || isAfterpulse;
      if !clicked {
        return Silence(index, basis);
      }
      lastDetectionIndex := Some(index);
      var (sentBit, sentBasis) := Depolarize(sent);
      var measured: Bit;
      if isDarkCount && !photonDetected {
        measured := draws.randomBit;
      } else if basis == sentBasis {
        measured := if draws.flip < params.misalignmentErrorProb then 1 - sentBit else sentBit;
      } else {
        measured := draws.randomBit;
      }
      event := DetectionEvent(index, true, Some(measured), basis,
                              isDarkCount && !photonDetected,
                              isAfterpulse && !photonDetected && !isDarkCount);
    }

    method Reset()
      modifies this
      ensures lastDetectionIndex == None
    {
      lastDetectionIndex := None;
    }
  }

  /** The pulse loop: the events are those of `Run`, starting from the detector's memory. */
  method SimulateNPulses(detector: SinglePhotonDetector, p: Pulses) returns (events: seq<DetectionEvent>)
    requires detector.Valid() && p.Valid()
    modifies detector
    ensures (events, detector.lastDetectionIndex) ==
            Run(detector.params, old(detector.lastDetectionIndex), p, |p.bits|)
  {
    events := [];
    for i := 0 to |p.bits|
      invariant (events, detector.lastDetectionIndex) ==
                Run(detector.params, old(detector.lastDetectionIndex), p, i)
    {
      var arriving := if p.draws[i].photons == 0 then 0 else p.draws[i].surviving;
      var event := detector.Attempt(arriving, Polarize(p.bits[i], p.bases[i]), p.bobBases[i], i, p.draws[i]);
      events := events + [event];
    }
  }

  // ----- encoding -----

  /** Measuring in the encoding basis reads the encoded bit; the map is a bijection. */
  lemma PolarizationRoundTrip(bit: Bit, basis: Basis, p: Polarization)
    ensures Depolarize(Polarize(bit, basis)) == (bit, basis)
    ensures var (b, s) := Depolarize(p); Polarize(b, s) == p
  {
  }

  // ----- dead time -----

  /** One pulse, as far as the dead time is concerned. */
  ghost predicate Step(deadTime: nat, memory: Option<int>, e: DetectionEvent, memory': Option<int>, index: int) {
    && e.pulseIndex == index
    && (e.detected <==> e.measuredBit.Some?)
    && if e.detected then !InDeadTime(memory, index, deadTime) && memory' == Some(index) else memory' == memory
  }

  /** `es` with the detector's memory before and after every pulse. */
  ghost predicate Trace(deadTime: nat, es: seq<DetectionEvent>, memories: seq<Option<int>>) {
    && |memories| == |es| + 1
    && forall i :: 0 <= i < |es| ==> Step(deadTime, memories[i], es[i], memories[i + 1], i)
  }

  lemma {:induction false} RunTrace(params: ChannelParameters, last: Option<int>, p: Pulses, k: nat)
    returns (memories: seq<Option<int>>)
    requires p.Valid() && k <= |p.bits|
    ensures Trace(DeadTimePulses(params.deadTimeNs), Run(params, last, p, k).0, memories)
    ensures memories[0] == last && memories[k] == Run(params, last, p, k).1
  {
    if k == 0 {
      memories := [last];
    } else {
      var before := RunTrace(params, last, p, k - 1);
      var (event, memory) := Pulse(params, before[k - 1], p, k - 1);
      assert Step(DeadTimePulses(params.deadTimeNs), before[k - 1], event, memory, k - 1);
      memories := before + [memory];
    }
  }

  /** The detector remembers the latest detection. */
  lemma {:induction false} TraceMemory(deadTime: nat, es: seq<DetectionEvent>, memories: seq<Option<int>>, i: nat, k: nat)
    requires Trace(deadTime, es, memories) && i < k <= |es| && es[i].detected
    ensures memories[k].Some? && i <= memories[k].value < k
  {
    assert Step(deadTime, memories[k - 1], es[k - 1], memories[k], k - 1);
    if i < k - 1 {
      TraceMemory(deadTime, es, memories, i, k - 1);
    }
  }

  /** Two detections are never closer than the dead time. */
  lemma DetectionsSpaced(params: ChannelParameters, last: Option<int>, p: Pulses, i: nat, j: nat)
    requires p.Valid() && i < j < |p.bits|
    ensures var es := Run(params, last, p, |p.bits|).0;
            es[i].detected && es[j].detected ==> j - i >= DeadTimePulses(params.deadTimeNs)
  {
    var es, d := Run(params, last, p, |p.bits|).0, DeadTimePulses(params.deadTimeNs);
    var memories := RunTrace(params, last, p, |p.bits|);
    if es[i].detected && es[j].detected {
      TraceMemory(d, es, memories, i, j);
      assert Step(d, memories[j], es[j], memories[j + 1], j);
    }
  }

  lemma TracePrefix(deadTime: nat, es: seq<DetectionEvent>, memories: seq<Option<int>>, k: nat)
    requires Trace(deadTime, es, memories) && k <= |es|
    ensures Trace(deadTime, es[..k], memories[..k + 1])
  {
  }

  /** Hence `c` detections reach at least to pulse `(c - 1) * deadTime`. */
  lemma {:induction false} DetectionsSpread(deadTime: nat, es: seq<DetectionEvent>, memories: seq<Option<int>>)
    requires Trace(deadTime, es, memories)
    ensures Detections(es) > 0 ==>
              memories[|es|].Some? && (Detections(es) - 1) * deadTime <= memories[|es|].value < |es|
  {
    if |es| > 0 {
      var k := |es| - 1;
      TracePrefix(deadTime, es, memories, k);
      DetectionsSpread(deadTime, es[..k], memories[..k + 1]);
      assert Step(deadTime, memories[k], es[k], memories[k + 1], k);
      var c := Detections(es[..k]);
      assert c * deadTime == (c - 1) * deadTime + deadTime;
    }
  }

  function CeilDiv(n: nat, d: nat): (q: nat)
    requires d > 0
  {
    (n + d - 1) / d
  }

  lemma CeilDivBounds(n: nat, d: nat, c: nat)
    requires d > 0
    ensures c > 0 && (c - 1) * d < n ==> c <= CeilDiv(n, d)
    ensures n <= c * d ==> CeilDiv(n, d) <= c
  {
    var q := CeilDiv(n, d);
    assert n + d - 1 == q * d + (n + d - 1) % d;
    if q < c { MultiplyMonotone(q, c - 1, d); }
    if c < q { MultiplyMonotone(c + 1, q, d); }
  }

  /** A round of n pulses has at most ceil(n / deadTime) detections. */
  lemma DetectionsBounded(params: ChannelParameters, p: Pulses)
    requires p.Valid()
    ensures Detections(Events(params, p)) <= CeilDiv(|p.bits|, DeadTimePulses(params.deadTimeNs))
  {
    var memories := RunTrace(params, None, p, |p.bits|);
    var es, d := Events(params, p), DeadTimePulses(params.deadTimeNs);
    DetectionsSpread(d, es, memories);
    CeilDivBounds(|es|, d, Detections(es));
  }

  /** The detector clicks as soon as it has recovered. */
  ghost predicate Eager(deadTime: nat, es: seq<DetectionEvent>, memories: seq<Option<int>>)
    requires |memories| == |es| + 1
  {
    forall i :: 0 <= i < |es| && !InDeadTime(memories[i], i, deadTime) ==> es[i].detected
  }

  /** Such a detector clicks every `deadTime` pulses. */
  lemma {:induction false} EagerDetections(deadTime: nat, es: seq<DetectionEvent>, memories: seq<Option<int>>)
    requires deadTime > 0 && |es| > 0 && Trace(deadTime, es, memories) && Eager(deadTime, es, memories)
    requires memories[0] == None
    ensures Detections(es) > 0
    ensures memories[|es|] == Some((Detections(es) - 1) * deadTime)
    ensures (Detections(es) - 1) * deadTime < |es| <= Detections(es) * deadTime
  {
    var k := |es| - 1;
    assert Step(deadTime, memories[k], es[k], memories[k + 1], k);
    var c := Detections(es[..k]);
    assert c * deadTime == (c - 1) * deadTime + deadTime;
    assert (c + 1) * deadTime == c * deadTime + deadTime;
    if k == 0 {
      assert es[0].detected && Detections(es[..0]) == 0;
    } else {
      TracePrefix(deadTime, es, memories, k);
      EagerDetections(deadTime, es[..k], memories[..k + 1]);
    }
  }

  /** The bound is attained, after any number of pulses: if every one of them triggers,
      there are exactly ceil(k / deadTime) detections. */
  lemma DetectionsAttained(params: ChannelParameters, p: Pulses, k: nat)
    requires p.Valid() && 0 < k <= |p.bits|
    requires forall i :: 0 <= i < |p.draws| ==> Triggers(params, p.draws[i])
    ensures Detections(Run(params, None, p, k).0) == CeilDiv(k, DeadTimePulses(params.deadTimeNs))
  {
    var es, d := Run(params, None, p, k).0, DeadTimePulses(params.deadTimeNs);
    var memories := RunTrace(params, None, p, k);
    RunEager(params, p, k, memories);
    EagerDetections(d, es, memories);
    CeilDivBounds(k, d, Detections(es));
  }

  lemma {:induction false} RunEager(params: ChannelParameters, p: Pulses, k: nat, memories: seq<Option<int>>)
    requires p.Valid() && k <= |p.bits|
    requires forall i :: 0 <= i < |p.draws| ==> Triggers(params, p.draws[i])
    requires Trace(DeadTimePulses(params.deadTimeNs), Run(params, None, p, k).0, memories) && memories[0] == None
    ensures memories[k] == Run(params, None, p, k).1
    ensures Eager(DeadTimePulses(params.deadTimeNs), Run(params, None, p, k).0, memories)
  {
    if k > 0 {
      var d, es := DeadTimePulses(params.deadTimeNs), Run(params, None, p, k).0;
      TracePrefix(d, es, memories, k - 1);
      assert es[..k - 1] == Run(params, None, p, k - 1).0;
      RunEager(params, p, k - 1, memories[..k]);
      assert Step(d, memories[k - 1], es[k - 1], memories[k], k - 1);
      assert es[k - 1] == Pulse(params, memories[k - 1], p, k - 1).0;
      forall i | 0 <= i < k && !InDeadTime(memories[i], i, d) ensures es[i].detected {
        if i < k - 1 {
          assert es[i] == es[..k - 1][i] && memories[i] == memories[..k][i];
        }
      }
    }
  }

  lemma {:induction false} RunPrefix(params: ChannelParameters, last: Option<int>, p: Pulses, t: nat, k: nat)
    requires p.Valid() && t <= k <= |p.bits|
    ensures Run(params, last, p, k).0[..t] == Run(params, last, p, t).0
  {
    if t < k {
      RunPrefix(params, last, p, t, k - 1);
      assert Run(params, last, p, k).0[..t] == Run(params, last, p, k - 1).0[..t];
    }
  }

  // ----- noise -----

  /** Without dark counts and misalignment a detection in the sender's basis reads the
      sent bit, whether a photon or an afterpulse caused it. */
  lemma {:induction false} NoiselessReading(params: ChannelParameters, last: Option<int>, p: Pulses, k: nat, i: nat)
    requires p.Valid() && i < k <= |p.bits|
    requires params.darkCountRate <= 0.0 && params.misalignmentErrorProb <= 0.0
    ensures var e := Run(params, last, p, k).0[i];
            e.detected && p.bobBases[i] == p.bases[i] ==> e.measuredBit == Some(p.bits[i])
  {
    if i < k - 1 {
      NoiselessReading(params, last, p, k - 1, i);
    } else {
      PolarizationRoundTrip(p.bits[i], p.bases[i], H);
    }
  }

  /** If the outcome is random or does not flip, and where it is random gives the sent bit,
      then a detection reads the sent bit. */
  lemma {:induction false} FavourableReading(params: ChannelParameters, last: Option<int>, p: Pulses, k: nat, i: nat)
    requires p.Valid() && i < k <= |p.bits|
    requires params.misalignmentErrorProb <= p.draws[i].flip || p.bobBases[i] != p.bases[i]
    requires p.draws[i].randomBit == p.bits[i]
    ensures var e := Run(params, last, p, k).0[i];
            e.detected ==> e.measuredBit == Some(p.bits[i])
  {
    if i < k - 1 {
      FavourableReading(params, last, p, k - 1, i);
    } else {
      PolarizationRoundTrip(p.bits[i], p.bases[i], H);
    }
  }

  /** Where neither photons nor dark counts can trigger the detector it stays silent: an
      afterpulse needs an earlier detection. */
  lemma NoSourceNoDetection(params: ChannelParameters, p: Pulses, k: nat)
    requires p.Valid() && k <= |p.bits| && !CanClick(params)
    requires forall i :: 0 <= i < |p.draws| ==> PossiblePulse(params, p.draws[i])
    ensures var (events, memory) := Run(params, None, p, k);
            Detections(events) == 0 && memory == None
  {
    forall i | 0 <= i < |p.draws| ensures !Triggers(params, p.draws[i]) {
      assert PossiblePulse(params, p.draws[i]);
    }
    NoTriggerNoDetection(params, p, k);
  }

  /** If no pulse triggers, nothing is detected at all. */
  lemma {:induction false} NoTriggerNoDetection(params: ChannelParameters, p: Pulses, k: nat)
    requires p.Valid() && k <= |p.bits|
    requires forall i :: 0 <= i < |p.draws| ==> !Triggers(params, p.draws[i])
    ensures var (events, memory) := Run(params, None, p, k);
            Detections(events) == 0 && memory == None
  {
    if k > 0 {
      NoTriggerNoDetection(params, p, k - 1);
      var events := Run(params, None, p, k).0;
      assert !Triggers(params, p.draws[k - 1]);
      assert events[..k - 1] == Run(params, None, p, k - 1).0;
    }
  }

  // ----- what a detection is and what it reads -----

  /** A photon reaches the detector and triggers it. */
  predicate PhotonClicks(draws: PulseDraws) {
    draws.surviving > 0 && draws.clicks > 0
  }

  /** Some detection less than `gap` pulses before pulse `i`. */
  ghost predicate DetectedWithin(events: seq<DetectionEvent>, i: nat, gap: int)
    requires i <= |events|
  {
    exists j: nat :: j < i && events[j].detected && i - j < gap
  }

  ghost predicate Afterpulses(params: ChannelParameters, events: seq<DetectionEvent>, i: nat, draws: PulseDraws)
    requires i <= |events|
  {
    DetectedWithin(events, i, 3 * DeadTimePulses(params.deadTimeNs)) && draws.afterpulse < params.afterpulseProbability
  }

  /** When pulse `i` is detected: the last detection is a dead time ago, and a photon, a dark
      count or an afterpulse triggers the detector. */
  ghost predicate Detects(params: ChannelParameters, events: seq<DetectionEvent>, i: nat, draws: PulseDraws)
    requires i <= |events|
  {
    && !DetectedWithin(events, i, DeadTimePulses(params.deadTimeNs))
    && (PhotonClicks(draws) || draws.dark < params.darkCountRate || Afterpulses(params, events, i, draws))
  }

  /** The exact reading law of a pulse: whether it is detected, what it reads and how it is
      labelled, from its draws, the sent bit and basis, and the detections before it. */
  ghost predicate ReadsByLaw(params: ChannelParameters, events: seq<DetectionEvent>, i: nat, p: Pulses)
    requires p.Valid() && i < |events| <= |p.bits|
  {
    var e, draws, dark := events[i], p.draws[i], p.draws[i].dark < params.darkCountRate;
    && e.pulseIndex == i && e.basis == p.bobBases[i]
    && (e.detected <==> Detects(params, events, i, draws))
    && (e.isDarkCount <==> e.detected && dark && !PhotonClicks(draws))
    && (e.isAfterpulse <==> e.detected && Afterpulses(params, events, i, draws) && !PhotonClicks(draws) && !dark)
    && (!e.detected ==> e.measuredBit == None)
    && (e.detected ==> e.measuredBit.Some?)
    && (e.detected ==>
          if (dark && !PhotonClicks(draws)) || p.bobBases[i] != p.bases[i]
          then e.measuredBit.value == draws.randomBit
          else (e.measuredBit.value != p.bits[i] <==> draws.flip < params.misalignmentErrorProb))
  }

  /** The detector remembers its latest detection, and none if there was none. */
  ghost predicate Remembers(events: seq<DetectionEvent>, memory: Option<int>) {
    match memory
    case None => forall j :: 0 <= j < |events| ==> !events[j].detected
    case Some(m) =>
      && 0 <= m < |events| && events[m].detected
      && forall j :: m < j < |events| ==> !events[j].detected
  }

  lemma {:induction false} RunRemembers(params: ChannelParameters, p: Pulses, k: nat)
    requires p.Valid() && k <= |p.bits|
    ensures Remembers(Run(params, None, p, k).0, Run(params, None, p, k).1)
    decreases k
  {
    if k > 0 {
      RunRemembers(params, p, k - 1);
    }
  }

  lemma MemoryWithin(events: seq<DetectionEvent>, memory: Option<int>, gap: int)
    requires Remembers(events, memory)
    ensures DetectedWithin(events, |events|, gap) <==> memory.Some? && |events| - memory.value < gap
  {
  }

  lemma PulseReads(params: ChannelParameters, p: Pulses, events: seq<DetectionEvent>, memory: Option<int>)
    requires p.Valid() && |events| < |p.bits| && Remembers(events, memory)
    ensures ReadsByLaw(params, events + [Pulse(params, memory, p, |events|).0], |events|, p)
  {
    var i, longer := |events|, events + [Pulse(params, memory, p, |events|).0];
    var d := DeadTimePulses(params.deadTimeNs);
    MemoryWithin(events, memory, d);
    MemoryWithin(events, memory, 3 * d);
    WithinPrefix(longer, events, i, d);
    WithinPrefix(longer, events, i, 3 * d);
    PolarizationRoundTrip(p.bits[i], p.bases[i], H);
  }

  lemma WithinPrefix(longer: seq<DetectionEvent>, events: seq<DetectionEvent>, i: nat, gap: int)
    requires i <= |events| <= |longer| && longer[..i] == events[..i]
    ensures DetectedWithin(longer, i, gap) <==> DetectedWithin(events, i, gap)
  {
    assert forall j :: 0 <= j < i ==> longer[j] == longer[..i][j] == events[..i][j] == events[j];
  }

  /** Every pulse of a run obeys the reading law. */
  lemma DetectionLaw(params: ChannelParameters, p: Pulses, k: nat, i: nat)
    requires p.Valid() && i < k <= |p.bits|
    ensures ReadsByLaw(params, Run(params, None, p, k).0, i, p)
  {
    var (before, memory) := Run(params, None, p, i);
    var all, events := Run(params, None, p, k).0, Run(params, None, p, i + 1).0;
    RunRemembers(params, p, i);
    PulseReads(params, p, before, memory);
    RunPrefix(params, None, p, i + 1, k);
    assert events == before + [Pulse(params, memory, p, i).0];
    assert all[i] == all[..i + 1][i] == events[i];
    assert all[..i] == all[..i + 1][..i] == events[..i];
    WithinPrefix(all, events, i, DeadTimePulses(params.deadTimeNs));
    WithinPrefix(all, events, i, 3 * DeadTimePulses(params.deadTimeNs));
  }
}
