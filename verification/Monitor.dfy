/** QBER monitoring (shared/bb84/qber_monitor.py): counters and a bounded history that
    must agree with everything recorded since the last reset. */
module Monitor {
  import opened Wrappers
  import opened Protocol

  datatype QberEvent = Normal | Warning | IntrusionDetected | KeyGenerationFailed

  datatype Snapshot = Snapshot(
    qber: real,
    event: QberEvent,
    siftedBits: nat,
    finalKeyBits: nat,
    detectionRate: real,
    darkCountFraction: real,
    durationSeconds: real,
    abortReason: Option<AbortReason>)

  function Classify(r: RoundResult, threshold: real, warning: real): QberEvent {
    if r.Aborted() then (if r.qber >= threshold then IntrusionDetected else KeyGenerationFailed)
    else if r.qber >= warning then Warning
    else Normal
  }

  function Snap(r: RoundResult, threshold: real, warning: real): Snapshot {
    Snapshot(r.qber, Classify(r, threshold, warning), r.siftedBits, r.finalKeyBits,
             Ratio(r.detectionEvents, r.rawBitsGenerated),
             r.darkCountFraction, r.durationSeconds, r.abortReason)
  }

  /** What a snapshot says of a round. */
  ghost predicate Describes(s: Snapshot, r: RoundResult, threshold: real, warning: real) {
    && (s.event == IntrusionDetected <==> r.Aborted() && r.qber >= threshold)
    && (s.event == KeyGenerationFailed <==> r.Aborted() && r.qber < threshold)
    && (s.event == Warning <==> !r.Aborted() && r.qber >= warning)
    && (s.event == Normal <==> !r.Aborted() && r.qber < warning)
    && s.qber == r.qber && s.siftedBits == r.siftedBits && s.finalKeyBits == r.finalKeyBits
    && s.darkCountFraction == r.darkCountFraction && s.abortReason == r.abortReason
    && s.durationSeconds == r.durationSeconds
    && (r.rawBitsGenerated == 0 ==> s.detectionRate == 0.0)
    && (r.rawBitsGenerated > 0 ==> s.detectionRate * r.rawBitsGenerated as real == r.detectionEvents as real)
  }

  lemma RateLaw(x: nat, y: nat)
    ensures y == 0 ==> Ratio(x, y) == 0.0
    ensures y > 0 ==> Ratio(x, y) * y as real == x as real
  {
  }

  lemma SnapDescribes(r: RoundResult, threshold: real, warning: real)
    ensures Describes(Snap(r, threshold, warning), r, threshold, warning)
  {
    RateLaw(r.detectionEvents, r.rawBitsGenerated);
  }

  function Snaps(trace: seq<RoundResult>, threshold: real, warning: real): (s: seq<Snapshot>)
    ensures |s| == |trace|
  {
    seq(|trace|, i requires 0 <= i < |trace| => Snap(trace[i], threshold, warning))
  }

  /** Python's `s[-n:]` for positive `n`, and what a deque of length `n` retains. */
  function LastN<T>(s: seq<T>, n: nat): (r: seq<T>)
    ensures |r| == if |s| <= n then |s| else n
  {
    if |s| <= n then s else s[|s| - n..]
  }

  /** The history describes the latest rounds, as many as fit, in order. */
  ghost predicate DescribesLatest(history: seq<Snapshot>, trace: seq<RoundResult>, threshold: real, warning: real, size: nat) {
    && |history| == (if |trace| < size then |trace| else size)
    && forall k :: 0 <= k < |history| ==>
         Describes(history[k], trace[|trace| - |history| + k], threshold, warning)
  }

  lemma HistoryLaw(trace: seq<RoundResult>, threshold: real, warning: real, size: nat)
    ensures DescribesLatest(LastN(Snaps(trace, threshold, warning), size), trace, threshold, warning, size)
  {
    var all := Snaps(trace, threshold, warning);
    var history := LastN(all, size);
    forall k | 0 <= k < |history|
      ensures Describes(history[k], trace[|trace| - |history| + k], threshold, warning)
    {
      assert history[k] == all[|all| - |history| + k];
      SnapDescribes(trace[|trace| - |history| + k], threshold, warning);
    }
  }

  /** `append` on a deque of maximal length `n`. */
  function Append<T>(s: seq<T>, x: T, n: nat): seq<T> {
    if n == 0 then s else (if |s| >= n then s[1..] else s) + [x]
  }

  /** The six counters. */
  datatype Tally = Tally(
    rounds: nat,
    successful: nat,
    failed: nat,
    intrusions: nat,
    siftedBits: nat,
    finalBits: nat)

  function Count(t: Tally, r: RoundResult, threshold: real): Tally {
    Tally(t.rounds + 1,
          if r.Aborted() then t.successful else t.successful + 1,
          if r.Aborted() then t.failed + 1 else t.failed,
          if r.Aborted() && r.qber >= threshold then t.intrusions + 1 else t.intrusions,
          t.siftedBits + r.siftedBits,
          t.finalBits + r.finalKeyBits)
  }

  function TallyOf(trace: seq<RoundResult>, threshold: real): Tally {
    if |trace| == 0 then Tally(0, 0, 0, 0, 0, 0)
    else Count(TallyOf(trace[..|trace| - 1], threshold), trace[|trace| - 1], threshold)
  }

  ghost function SuccessfulRounds(trace: seq<RoundResult>): set<nat> {
    set i | 0 <= i < |trace| && !trace[i].Aborted()
  }

  ghost function IntrusionRounds(trace: seq<RoundResult>, threshold: real): set<nat> {
    set i | 0 <= i < |trace| && trace[i].Aborted() && trace[i].qber >= threshold
  }

  function Total(xs: seq<nat>): nat {
    if |xs| == 0 then 0 else Total(xs[..|xs| - 1]) + xs[|xs| - 1]
  }

  function SiftedBits(trace: seq<RoundResult>): (xs: seq<nat>)
    ensures |xs| == |trace|
  {
    seq(|trace|, i requires 0 <= i < |trace| => trace[i].siftedBits)
  }

  function FinalBits(trace: seq<RoundResult>): (xs: seq<nat>)
    ensures |xs| == |trace|
  {
    seq(|trace|, i requires 0 <= i < |trace| => trace[i].finalKeyBits)
  }

  /** The counters count the rounds they are named after and sum up their bits, over the
      whole trace: also those that have left the history. */
  lemma TallyMeaning(trace: seq<RoundResult>, threshold: real)
    ensures var t := TallyOf(trace, threshold);
            && t.rounds == |trace| == t.successful + t.failed
            && t.successful == |SuccessfulRounds(trace)|
            && t.intrusions == |IntrusionRounds(trace, threshold)| <= t.failed
            && t.siftedBits == Total(SiftedBits(trace)) && t.finalBits == Total(FinalBits(trace))
  {
    TallyBits(trace, threshold);
    TallySums(trace, threshold);
    TallySuccesses(trace, threshold);
    TallyIntrusions(trace, threshold);
  }

  lemma {:induction false} TallySums(trace: seq<RoundResult>, threshold: real)
    ensures var t := TallyOf(trace, threshold);
            t.rounds == |trace| == t.successful + t.failed && t.intrusions <= t.failed
  {
    if |trace| > 0 {
      TallySums(trace[..|trace| - 1], threshold);
    }
  }

  lemma {:induction false} TallyBits(trace: seq<RoundResult>, threshold: real)
    ensures TallyOf(trace, threshold).siftedBits == Total(SiftedBits(trace))
    ensures TallyOf(trace, threshold).finalBits == Total(FinalBits(trace))
  {
    if |trace| > 0 {
      var k := |trace| - 1;
      TallyBits(trace[..k], threshold);
      assert SiftedBits(trace)[..k] == SiftedBits(trace[..k]);
      assert FinalBits(trace)[..k] == FinalBits(trace[..k]);
    }
  }

  lemma {:induction false} TallySuccesses(trace: seq<RoundResult>, threshold: real)
    ensures TallyOf(trace, threshold).successful == |SuccessfulRounds(trace)|
  {
    if |trace| == 0 {
      assert SuccessfulRounds(trace) == {};
    } else {
      var k := |trace| - 1;
      var s := SuccessfulRounds(trace[..k]);
      TallySuccesses(trace[..k], threshold);
      assert k !in s;
      assert SuccessfulRounds(trace) == if trace[k].Aborted() then s else s + {k};
    }
  }

  lemma {:induction false} TallyIntrusions(trace: seq<RoundResult>, threshold: real)
    ensures TallyOf(trace, threshold).intrusions == |IntrusionRounds(trace, threshold)|
  {
    if |trace| == 0 {
      assert IntrusionRounds(trace, threshold) == {};
    } else {
      var k := |trace| - 1;
      var s := IntrusionRounds(trace[..k], threshold);
      TallyIntrusions(trace[..k], threshold);
      assert k !in s;
      assert IntrusionRounds(trace, threshold) ==
             if trace[k].Aborted() && trace[k].qber >= threshold then s + {k} else s;
    }
  }

  lemma TallyStep(trace: seq<RoundResult>, r: RoundResult, threshold: real)
    ensures TallyOf(trace + [r], threshold) == Count(TallyOf(trace, threshold), r, threshold)
  {
  }

  lemma SnapsStep(trace: seq<RoundResult>, r: RoundResult, threshold: real, warning: real, n: nat)
    ensures LastN(Snaps(trace + [r], threshold, warning), n) ==
            Append(LastN(Snaps(trace, threshold, warning), n), Snap(r, threshold, warning), n)
  {
    assert Snaps(trace + [r], threshold, warning) == Snaps(trace, threshold, warning) + [Snap(r, threshold, warning)];
    LastNStep(Snaps(trace, threshold, warning), Snap(r, threshold, warning), n);
  }

  lemma LastNStep<T>(s: seq<T>, x: T, n: nat)
    ensures LastN(s + [x], n) == Append(LastN(s, n), x, n)
  {
    if 0 < n <= |s| {
      assert (s + [x])[|s| + 1 - n..] == s[|s| + 1 - n..] + [x];
      assert |s| > n ==> s[|s| - n..][1..] == s[|s| + 1 - n..];
    }
  }

  function SumQber(s: seq<Snapshot>): real {
    if |s| == 0 then 0.0 else SumQber(s[..|s| - 1]) + s[|s| - 1].qber
  }

  function Average(s: seq<Snapshot>): real {
    if |s| > 0 then SumQber(s) / |s| as real else 0.0
  }

  /** The mean: zero of nothing, and one more value moves it by its share. */
  lemma AverageLaw(s: seq<Snapshot>, x: Snapshot)
    ensures Average([]) == 0.0
    ensures Average(s + [x]) * (|s| + 1) as real == Average(s) * |s| as real + x.qber
  {
    assert (s + [x])[..|s|] == s;
    if |s| > 0 {
      QuotientTimes(SumQber(s), |s| as real);
    }
    QuotientTimes(SumQber(s + [x]), (|s| + 1) as real);
  }

  lemma QuotientTimes(x: real, y: real)
    requires y > 0.0
    ensures x / y * y == x
  {
  }

  /** The nearest integer; of two, the even one. */
  function Nearest(z: real): (n: int)
    ensures -0.5 <= n as real - z <= 0.5
    ensures n as real - z == -0.5 || n as real - z == 0.5 ==> n % 2 == 0
  {
    var f := z.Floor;
    var rest := z - f as real;
    if rest < 0.5 || (rest == 0.5 && f % 2 == 0) then f else f + 1
  }

  /** Python's `round(x, 6)`. */
  function Round6(x: real): (r: real)
    ensures -0.0000005 <= r - x <= 0.0000005
    ensures r * 1000000.0 == Nearest(x * 1000000.0) as real
  {
    Nearest(x * 1000000.0) as real / 1000000.0
  }

  datatype Summary = Summary(
    totalRounds: nat,
    successfulRounds: nat,
    failedRounds: nat,
    intrusionCount: nat,
    currentQber: Option<real>,
    averageQberLast10: real,
    totalSiftedBits: nat,
    totalFinalBits: nat,
    latestEvent: Option<QberEvent>,
    threshold: real,
    warningThreshold: real)

  /** `get_summary`, from the history and the counters. */
  function Summarize(history: seq<Snapshot>, t: Tally, threshold: real, warning: real): Summary {
    var latest := if |history| > 0 then Some(history[|history| - 1]) else None;
    Summary(t.rounds, t.successful, t.failed, t.intrusions,
            if latest.Some? then Some(latest.value.qber) else None,
            Round6(Average(LastN(history, 10))),
            t.siftedBits, t.finalBits,
            if latest.Some? then Some(latest.value.event) else None, threshold, warning)
  }

  /** The summary of everything recorded since the last reset. */
  function SummaryOf(trace: seq<RoundResult>, threshold: real, warning: real, historySize: nat): Summary {
    Summarize(LastN(Snaps(trace, threshold, warning), historySize), TallyOf(trace, threshold), threshold, warning)
  }

  class QBERMonitor {
    const threshold: real
    const warningThreshold: real
    const historySize: nat
    var history: seq<Snapshot>
    var intrusionCount: nat
    var totalRounds: nat
    var successfulRounds: nat
    var failedRounds: nat
    var totalSiftedBits: nat
    var totalFinalBits: nat
    /** Every round recorded since the last reset. */
    ghost var trace: seq<RoundResult>

    /** Nothing that was recorded is lost from the counters, and the history is the
        bounded tail of the trace. */
    ghost predicate Valid()
      reads this
    {
      && history == LastN(Snaps(trace, threshold, warningThreshold), historySize)
      && Counters() == TallyOf(trace, threshold)
    }

    function Counters(): Tally
      reads this
    {
      Tally(totalRounds, successfulRounds, failedRounds, intrusionCount, totalSiftedBits, totalFinalBits)
    }

    constructor (threshold: real := 0.11, warningThreshold: real := 0.05, historySize: nat := 100)
      ensures Valid() && trace == []
      ensures this.threshold == threshold && this.warningThreshold == warningThreshold
      ensures this.historySize == historySize
    {
      this.threshold, this.warningThreshold, this.historySize := threshold, warningThreshold, historySize;
      history, trace := [], [];
      intrusionCount, totalRounds, successfulRounds, failedRounds := 0, 0, 0, 0;
      totalSiftedBits, totalFinalBits := 0, 0;
    }

    method RecordRound(result: RoundResult) returns (snapshot: Snapshot)
      requires Valid()
      modifies this
      ensures Valid() && trace == old(trace) + [result]
      ensures snapshot == Snap(result, threshold, warningThreshold)
      ensures Describes(snapshot, result, threshold, warningThreshold)
      ensures successfulRounds == old(successfulRounds) + if result.Aborted() then 0 else 1
    {
      ghost var before, longer := Counters(), trace + [result];
      TallyStep(trace, result, threshold);
      SnapsStep(trace, result, threshold, warningThreshold, historySize);
      SnapDescribes(result, threshold, warningThreshold);
      var event: QberEvent;
      if result.Aborted() {
        event := if result.qber >= threshold then IntrusionDetected else KeyGenerationFailed;
      } else if result.qber >= warningThreshold {
        event := Warning;
      } else {
        event := Normal;
      }
      var detectionRate := Ratio(result.detectionEvents, result.rawBitsGenerated);
      snapshot := Snapshot(result.qber, event, result.siftedBits, result.finalKeyBits,
                           detectionRate, result.darkCountFraction, result.durationSeconds, result.abortReason);
      assert snapshot == Snap(result, threshold, warningThreshold);
      history := Append(history, snapshot, historySize);
      assert history == LastN(Snaps(longer, threshold, warningThreshold), historySize);
      totalRounds := totalRounds + 1;
      totalSiftedBits := totalSiftedBits + result.siftedBits;
      totalFinalBits := totalFinalBits + result.finalKeyBits;
      if result.Aborted() {
        failedRounds := failedRounds + 1;
        if event == IntrusionDetected {
          intrusionCount := intrusionCount + 1;
        }
      } else {
        successfulRounds := successfulRounds + 1;
      }
      assert Counters() == Count(before, result, threshold);
      trace := longer;
    }

    method GetHistory() returns (h: seq<Snapshot>)
      requires Valid()
      ensures h == LastN(Snaps(trace, threshold, warningThreshold), historySize)
      ensures DescribesLatest(h, trace, threshold, warningThreshold, historySize)
    {
      HistoryLaw(trace, threshold, warningThreshold, historySize);
      h := history;
    }

    method GetSummary() returns (s: Summary)
      requires Valid()
      ensures s == SummaryOf(trace, threshold, warningThreshold, historySize)
    {
      var recent := LastN(history, 10);
      var average := Round6(Average(recent));
      var current, event := None, None;
      if |history| > 0 {
        var latest := history[|history| - 1];
        current, event := Some(latest.qber), Some(latest.event);
      }
      s := Summary(totalRounds, successfulRounds, failedRounds, intrusionCount, current, average,
                   totalSiftedBits, totalFinalBits, event, threshold, warningThreshold);
    }

    method Reset()
      requires Valid()
      modifies this
      ensures Valid() && trace == []
    {
      history, trace := [], [];
      intrusionCount, totalRounds, successfulRounds, failedRounds := 0, 0, 0, 0;
      totalSiftedBits, totalFinalBits := 0, 0;
    }
  }

  /** What the summary says about the whole trace: its totals cover every round, its
      latest round is the trace's last, and its average covers the last ten rounds, or as
      many of them as the history retains. */
  lemma SummaryMeaning(trace: seq<RoundResult>, threshold: real, warning: real, historySize: nat)
    ensures var s := SummaryOf(trace, threshold, warning, historySize);
            && s.totalRounds == |trace| == s.successfulRounds + s.failedRounds
            && s.successfulRounds == |SuccessfulRounds(trace)|
            && s.intrusionCount == |IntrusionRounds(trace, threshold)| <= s.failedRounds
            && s.totalSiftedBits == Total(SiftedBits(trace)) && s.totalFinalBits == Total(FinalBits(trace))
            && (if historySize > 0 && |trace| > 0 then
                  && s.currentQber == Some(trace[|trace| - 1].qber)
                  && s.latestEvent == Some(Classify(trace[|trace| - 1], threshold, warning))
                else s.currentQber == None && s.latestEvent == None)
            && s.averageQberLast10 ==
               Round6(Average(LastN(Snaps(trace, threshold, warning), if historySize < 10 then historySize else 10)))
  {
    TallyMeaning(trace, threshold);
    SummaryLatest(trace, threshold, warning, historySize);
    LastOfLast(Snaps(trace, threshold, warning), historySize, 10);
  }

  lemma SummaryLatest(trace: seq<RoundResult>, threshold: real, warning: real, historySize: nat)
    ensures var s := SummaryOf(trace, threshold, warning, historySize);
            if historySize > 0 && |trace| > 0 then
              && s.currentQber == Some(trace[|trace| - 1].qber)
              && s.latestEvent == Some(Classify(trace[|trace| - 1], threshold, warning))
            else s.currentQber == None && s.latestEvent == None
  {
    var all := Snaps(trace, threshold, warning);
    var history := LastN(all, historySize);
    if historySize > 0 && |trace| > 0 {
      assert history[|history| - 1] == all[|all| - 1] == Snap(trace[|trace| - 1], threshold, warning);
    }
  }

  lemma LastOfLast<T>(s: seq<T>, n: nat, m: nat)
    ensures LastN(LastN(s, n), m) == LastN(s, if n < m then n else m)
  {
  }
}
