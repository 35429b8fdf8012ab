/** Key rotation and index-tagged frames (server/utils/av.py, shared/av/namespaces.py). */
module Rotation {
  import opened Wrappers
  import opened Bits
  import opened Protocol
  import opened Monitor
  import opened KeySources
  import PhysicalLayer
  import RoundProperties

  // ----- what the rotation loop publishes -----

  /** FILE mode: the pair in `AV.key` after `t` rotations. */
  function FileSnapshot(file: seq<Byte>, n: nat, t: nat): (s: (nat, seq<Byte>))
    requires 0 < n <= |file|
  {
    FileKeysCycle(file, n, t);
    (if t == 0 then 0 else t - 1, FileKeyAt(file, n, t).value)
  }

  lemma FileKeyNext(file: seq<Byte>, n: nat, t: nat)
    requires 0 < n <= |file|
    ensures var (data, pos) := FileKey(file, FilePosition(file, n, t + 1), n);
            data == Some(FileSnapshot(file, n, t + 1).1) && pos == FilePosition(file, n, t + 2)
  {
    FileKeysCycle(file, n, t + 1);
  }

  /** Index and key after `t` rotations, byte for byte. */
  lemma FileSnapshotLaw(file: seq<Byte>, n: nat, t: nat)
    requires 0 < n <= |file|
    ensures var (s, q) := (FileSnapshot(file, n, t), |file| / n);
            && q > 0 && s.0 == (if t == 0 then 0 else t - 1)
            && |s.1| == n && (t % q) * n + n <= |file|
            && forall j :: 0 <= j < n ==> s.1[j] == file[(t % q) * n + j]
  {
    FileKeyBytes(file, n, t);
  }

  /** BB84 mode: the key of the last round that had one. */
  function LastKey(initial: seq<Byte>, rounds: seq<RoundResult>): seq<Byte> {
    if |rounds| == 0 then initial
    else
      var r := rounds[|rounds| - 1];
      if r.key.Some? then r.key.value else LastKey(initial, rounds[..|rounds| - 1])
  }

  function RoundsOf(cfg: Config, draws: seq<RoundDraws>): (rounds: seq<RoundResult>)
    requires forall i :: 0 <= i < |draws| ==> draws[i].Valid(cfg.numRawBits)
    ensures |rounds| == |draws|
  {
    seq(|draws|, i requires 0 <= i < |draws| => Round(cfg, draws[i]))
  }

  /** A round has a key exactly if it did not abort. */
  ghost predicate KeyUnlessAborted(rounds: seq<RoundResult>) {
    forall i :: 0 <= i < |rounds| ==> (rounds[i].Aborted() <==> rounds[i].key.None?)
  }

  /** What is published in BB84 mode after some rounds of the loop. */
  ghost function Bb84Snapshot(initial: seq<Byte>, rounds: seq<RoundResult>): (nat, seq<Byte>) {
    var successes := |SuccessfulRounds(rounds)|;
    (if successes == 0 then 0 else successes - 1, LastKey(initial, rounds))
  }

  datatype KeySource = FileSource(file: FileKeyGenerator) | Bb84Source(bb84: BB84KeyGenerator)

  class AV {
    const source: KeySource
    const keyLength: nat
    const monitor: QBERMonitor?
    /** The published index and key. */
    var key: (nat, seq<Byte>)
    /** The loop's counter. */
    var keyIdx: nat
    /** Completed iterations in FILE mode. */
    ghost var rotations: nat
    /** The rounds run by the loop in BB84 mode. */
    ghost var rounds: seq<RoundResult>
    ghost const initialKey: seq<Byte>

    ghost predicate ValidFile(f: FileKeyGenerator)
      reads this, f
    {
      var n := (keyLength + 7) / 8;
      && f.Valid()
      && 0 < n <= |f.file|
      && f.handle == Some(FilePosition(f.file, n, rotations + 1))
      && keyIdx == rotations
      && key == FileSnapshot(f.file, n, rotations)
    }

    ghost predicate ValidBb84(g: BB84KeyGenerator)
      reads this, g, monitor
    {
      && monitor != null && g.monitor == monitor && monitor.Valid()
      && (keyLength != 0 ==> g.config.targetKeyLengthBits == keyLength)
      && monitor.trace == rounds && KeyUnlessAborted(rounds)
      && keyIdx == monitor.successfulRounds
      && key == (if keyIdx == 0 then 0 else keyIdx - 1, LastKey(initialKey, rounds))
      && g.key == key.1
    }

    constructor (source: KeySource, keyLength: nat, key: seq<Byte>, monitor: QBERMonitor?)
      ensures this.source == source && this.keyLength == keyLength && this.monitor == monitor
      ensures this.key == (0, key) && keyIdx == 0 && rotations == 0 && rounds == [] && initialKey == key
    {
      this.source, this.keyLength, this.monitor := source, keyLength, monitor;
      this.key, keyIdx := (0, key), 0;
      rotations, rounds, initialKey := 0, [], key;
    }

    /** `AV.__init__` with the FILE generator: reads the first key, or passes its error on. */
    static method StartFile(f: FileKeyGenerator, keyLength: nat) returns (r: Result<AV, KeyError>)
      requires f.Valid() && f.handle == None && f.keyLength == 0
      modifies f
      ensures r.Ok? <==> f.present && 0 < (keyLength + 7) / 8 <= |f.file|
      ensures r.Err? ==>
                r.error == if keyLength == 0 then ValueError else if !f.present then FileNotFound else FileTooSmall
      ensures r.Ok? ==> fresh(r.value) && r.value.source == FileSource(f) && r.value.keyLength == keyLength
      ensures r.Ok? ==> r.value.ValidFile(f) && r.value.rotations == 0
    {
      var n := (keyLength + 7) / 8;
      if 0 < n <= |f.file| {
        FileKeysCycle(f.file, n, 0);
      }
      assert FilePosition(f.file, n, 0) == 0;
      var outcome := f.GenerateKey(keyLength);
      match outcome {
        case Err(e) => r := Err(e);
        case Ok(_) =>
          var av := new AV(FileSource(f), keyLength, f.key, null);
          r := Ok(av);
      }
    }

    /** `AV.__init__` with the BB84 generator: the first round is not monitored, and the
        key stays empty if it aborts. */
    static method StartBb84(g: BB84KeyGenerator, keyLength: nat, draws: RoundDraws) returns (av: AV)
      requires g.monitor == null && g.key == [] && draws.Valid(g.config.numRawBits)
      modifies g
      ensures fresh(av) && av.source == Bb84Source(g) && av.keyLength == keyLength
      ensures av.monitor != null && fresh(av.monitor)
      ensures av.ValidBb84(g) && av.rounds == []
      ensures g.config == if keyLength != 0 then old(g.config).(targetKeyLengthBits := keyLength) else old(g.config)
      ensures av.initialKey == LastKey([], [Round(g.config, draws)])
    {
      g.GenerateKey(keyLength, draws);
      var m := new QBERMonitor();
      g.SetMetricsCallback(m);
      av := new AV(Bb84Source(g), keyLength, g.key, m);
    }

    /** One turn of `_rotate_keys` over the key file. */
    method RotateFile(f: FileKeyGenerator)
      requires source == FileSource(f) && ValidFile(f)
      modifies this, f
      ensures ValidFile(f)
      ensures rotations == old(rotations) + 1
    {
      var n := (keyLength + 7) / 8;
      FileKeyNext(f.file, n, rotations);
      var _ := f.GenerateKey(keyLength);
      key := (keyIdx, f.key);
      keyIdx := keyIdx + 1;
      rotations := rotations + 1;
    }

    /** One turn over BB84 rounds. An aborted round leaves the published pair and the
        counter alone; otherwise the new key goes out under the next index. */
    method RotateBb84(g: BB84KeyGenerator, draws: RoundDraws) returns (ghost r: RoundResult)
      requires source == Bb84Source(g) && ValidBb84(g) && draws.Valid(g.config.numRawBits)
      modifies this, g, monitor
      ensures ValidBb84(g) && g.config == old(g.config)
      ensures r == Round(g.config, draws) && rounds == old(rounds) + [r]
      ensures r.Aborted() ==> key == old(key) && keyIdx == old(keyIdx)
      ensures !r.Aborted() ==> r.key.Some? && key == (old(keyIdx), r.key.value) && keyIdx == old(keyIdx) + 1
    {
      g.GenerateKey(keyLength, draws);
      r := g.lastRoundResult.value;
      Publish(g, r);
    }

    /** The rest of the turn, after the round `r`. */
    method Publish(g: BB84KeyGenerator, ghost r: RoundResult)
      requires monitor != null && g.monitor == monitor && monitor.Valid() && monitor.trace == rounds + [r]
      requires keyLength != 0 ==> g.config.targetKeyLengthBits == keyLength
      requires KeyUnlessAborted(rounds) && g.lastRoundResult == Some(r) && (r.Aborted() <==> r.key.None?)
      requires g.key == (if r.Aborted() then LastKey(initialKey, rounds) else r.key.value)
      requires keyIdx + (if r.Aborted() then 0 else 1) == monitor.successfulRounds
      requires key == (if keyIdx == 0 then 0 else keyIdx - 1, LastKey(initialKey, rounds))
      modifies this
      ensures ValidBb84(g) && rounds == old(rounds) + [r]
      ensures r.Aborted() ==> key == old(key) && keyIdx == old(keyIdx)
      ensures !r.Aborted() ==> key == (old(keyIdx), r.key.value) && keyIdx == old(keyIdx) + 1
    {
      LastKeyStep(initialKey, rounds, r);
      rounds := rounds + [r];
      var result := g.lastRoundResult;
      if result.Some? && result.value.Aborted() {
        return;
      }
      key := (keyIdx, g.key);
      keyIdx := keyIdx + 1;
    }

    /** The rotation loop, `turns` times round the key file. */
    method RotateFileKeys(f: FileKeyGenerator, turns: nat)
      requires source == FileSource(f) && ValidFile(f)
      modifies this, f
      ensures ValidFile(f)
      ensures rotations == old(rotations) + turns
    {
      for i := 0 to turns
        invariant ValidFile(f) && rotations == old(rotations) + i
      {
        RotateFile(f);
      }
    }

    /** The rotation loop over a series of BB84 rounds. */
    method RotateBb84Keys(g: BB84KeyGenerator, draws: seq<RoundDraws>)
      requires source == Bb84Source(g) && ValidBb84(g)
      requires forall i :: 0 <= i < |draws| ==> draws[i].Valid(g.config.numRawBits)
      modifies this, g, monitor
      ensures ValidBb84(g) && g.config == old(g.config)
      ensures rounds == old(rounds) + RoundsOf(g.config, draws)
    {
      ghost var cfg, before := g.config, rounds;
      ghost var expected := RoundsOf(cfg, draws);
      for i := 0 to |draws|
        invariant ValidBb84(g) && g.config == cfg
        invariant rounds == before + expected[..i]
      {
        ghost var r := RotateBb84(g, draws[i]);
        assert r == expected[i];
        ExtendByOne(before, expected, i, r);
      }
      assert expected[..|draws|] == expected;
    }
  }

  lemma ExtendByOne<T>(base: seq<T>, all: seq<T>, i: nat, x: T)
    requires i < |all| && all[i] == x
    ensures base + all[..i] + [x] == base + all[..i + 1]
  {
  }

  lemma LastKeyStep(initial: seq<Byte>, rounds: seq<RoundResult>, r: RoundResult)
    ensures LastKey(initial, rounds + [r]) == if r.key.Some? then r.key.value else LastKey(initial, rounds)
  {
  }

  // ----- laws of the BB84 loop -----

  /** The published key is that of the latest successful round. */
  lemma {:induction false} LastKeyIsLatestSuccess(initial: seq<Byte>, rounds: seq<RoundResult>, i: nat)
    requires KeyUnlessAborted(rounds)
    requires i < |rounds| && !rounds[i].Aborted()
    requires forall j :: i < j < |rounds| ==> rounds[j].Aborted()
    ensures rounds[i].key.Some? && LastKey(initial, rounds) == rounds[i].key.value
  {
    var k := |rounds| - 1;
    if i < k {
      LastKeyIsLatestSuccess(initial, rounds[..k], i);
    }
  }

  /** With no success the initial key stays. */
  lemma {:induction false} LastKeyWithoutSuccess(initial: seq<Byte>, rounds: seq<RoundResult>)
    requires forall r :: r in rounds ==> r.Aborted() && r.key.None?
    ensures LastKey(initial, rounds) == initial
  {
    if |rounds| > 0 {
      assert rounds[|rounds| - 1] in rounds;
      assert forall r :: r in rounds[..|rounds| - 1] ==> r in rounds;
      LastKeyWithoutSuccess(initial, rounds[..|rounds| - 1]);
    }
  }

  ghost predicate LatestSuccess(rounds: seq<RoundResult>, i: int) {
    i in SuccessfulRounds(rounds) && forall j :: i < j < |rounds| ==> rounds[j].Aborted()
  }

  lemma {:induction false} LatestSuccessOf(rounds: seq<RoundResult>) returns (i: int)
    requires SuccessfulRounds(rounds) != {}
    ensures LatestSuccess(rounds, i)
  {
    var k := |rounds| - 1;
    var j :| j in SuccessfulRounds(rounds);
    if rounds[k].Aborted() {
      assert j in SuccessfulRounds(rounds[..k]);
      i := LatestSuccessOf(rounds[..k]);
    } else {
      i := k;
    }
  }

  /** Before any success it is the initial pair, afterwards the key of the latest success
      under the number of successes less one. */
  lemma SnapshotMeaning(initial: seq<Byte>, rounds: seq<RoundResult>)
    requires KeyUnlessAborted(rounds)
    ensures SuccessfulRounds(rounds) == {} ==> Bb84Snapshot(initial, rounds) == (0, initial)
    ensures forall i :: LatestSuccess(rounds, i) ==>
              rounds[i].key.Some? && Bb84Snapshot(initial, rounds) == (|SuccessfulRounds(rounds)| - 1, rounds[i].key.value)
  {
    if SuccessfulRounds(rounds) == {} {
      NoSuccess(rounds);
      LastKeyWithoutSuccess(initial, rounds);
    }
    forall i | LatestSuccess(rounds, i)
      ensures rounds[i].key.Some?
      ensures Bb84Snapshot(initial, rounds) == (|SuccessfulRounds(rounds)| - 1, rounds[i].key.value)
    {
      LastKeyIsLatestSuccess(initial, rounds, i);
    }
  }

  /** At every moment the published pair is determined by the rounds of the loop: before
      any success it is the initial pair, afterwards the latest success's key under the
      number of successes less one. */
  lemma PublishedPair(av: AV, g: BB84KeyGenerator)
    requires av.source == Bb84Source(g) && av.ValidBb84(g)
    ensures av.key == Bb84Snapshot(av.initialKey, av.rounds)
    ensures if SuccessfulRounds(av.rounds) == {} then av.key == (0, av.initialKey)
            else exists i ::
              && LatestSuccess(av.rounds, i) && av.rounds[i].key.Some?
              && av.key == (|SuccessfulRounds(av.rounds)| - 1, av.rounds[i].key.value)
  {
    TallyMeaning(av.rounds, av.monitor.threshold);
    SnapshotMeaning(av.initialKey, av.rounds);
    if SuccessfulRounds(av.rounds) != {} {
      var i := LatestSuccessOf(av.rounds);
    }
  }

  lemma NoSuccess(rounds: seq<RoundResult>)
    requires SuccessfulRounds(rounds) == {} && KeyUnlessAborted(rounds)
    ensures forall r :: r in rounds ==> r.Aborted() && r.key.None?
  {
    forall r | r in rounds ensures r.Aborted() && r.key.None? {
      var i :| 0 <= i < |rounds| && rounds[i] == r;
      assert i !in SuccessfulRounds(rounds);
    }
  }

  /** The published key is the initial one or some round's. */
  lemma {:induction false} LastKeyOrigin(initial: seq<Byte>, rounds: seq<RoundResult>)
    ensures LastKey(initial, rounds) == initial || exists r :: r in rounds && r.key == Some(LastKey(initial, rounds))
  {
    if |rounds| > 0 {
      var k := |rounds| - 1;
      assert rounds[k] in rounds;
      if rounds[k].key.None? {
        LastKeyOrigin(initial, rounds[..k]);
        assert forall r :: r in rounds[..k] ==> r in rounds;
      }
    }
  }

  /** Which rounds a monitor with its own threshold files as intrusions: at a threshold of at
      most one every round with fewer than ten sifted bits; of the others those that abort
      with an estimate from the threshold on. */
  lemma IntrusionMeaning(cfg: Config, d: RoundDraws, threshold: real, warning: real)
    requires d.Valid(cfg.numRawBits)
    ensures var e := RoundEstimate(cfg, d);
            Classify(Round(cfg, d), threshold, warning) == IntrusionDetected <==>
            if |RoundSifted(cfg, d).alice| < MIN_SIFTED_BITS then threshold <= 1.0
            else e.qber >= threshold && (e.qber >= cfg.qberThreshold || RoundKey(cfg, d).None?)
  {
    RoundProperties.NothingDetectedNothingSifted(cfg, d);
  }

  ghost predicate FiledThoughDead(cfg: Config, d: RoundDraws, threshold: real, warning: real) {
    RoundProperties.Dead(cfg, d) && Classify(Round(cfg, d), threshold, warning) == IntrusionDetected
  }

  /** A dead channel does count as an intrusion: without any eavesdropper some possible round
      sees nothing and is filed as one, exactly if the threshold is at most one and dark
      counts are not certain. */
  lemma DeadChannelFiledIff(cfg: Config, threshold: real, warning: real)
    ensures (exists d: RoundDraws :: FiledThoughDead(cfg, d, threshold, warning)) <==>
            threshold <= 1.0 && (cfg.numRawBits == 0 || cfg.channel.darkCountRate < 1.0)
  {
    RoundProperties.DeadRoundIff(cfg);
    forall d: RoundDraws | RoundProperties.Dead(cfg, d)
      ensures FiledThoughDead(cfg, d, threshold, warning) <==> threshold <= 1.0
    {
      DeadRoundFiled(cfg, d, threshold, warning);
    }
  }

  lemma DeadRoundFiled(cfg: Config, d: RoundDraws, threshold: real, warning: real)
    requires RoundProperties.Dead(cfg, d)
    ensures Classify(Round(cfg, d), threshold, warning) == IntrusionDetected <==> threshold <= 1.0
  {
  }

  // ----- frames -----

  /** The key sizes that the AES library accepts. */
  predicate IsAesKey(key: seq<Byte>) {
    |key| == 16 || |key| == 24 || |key| == 32
  }

  /** An authenticated ciphertext, idealised: it opens under its own key only. */
  datatype Sealed = Sealed(key: seq<Byte>, data: seq<Byte>)

  /** `encrypt`: None where the library rejects the key. */
  function Encrypt(data: seq<Byte>, key: seq<Byte>): Option<Sealed> {
    if IsAesKey(key) then Some(Sealed(key, data)) else None
  }

  /** `decrypt`: None where the key is rejected or the tag does not match. */
  function Decrypt(s: Sealed, key: seq<Byte>): Option<seq<Byte>> {
    if IsAesKey(key) && s.key == key then Some(s.data) else None
  }

  /** `idx.to_bytes(4, "big")`, None where it overflows. */
  function Tag(idx: nat): Option<seq<Byte>> {
    if idx >= 0x1_0000_0000 then None
    else
      var q1 := idx / 0x100;
      var q2 := q1 / 0x100;
      var q3 := q2 / 0x100;
      Some([q3, q2 % 0x100, q1 % 0x100, idx % 0x100])
  }

  /** `int.from_bytes(b, "big")`. */
  function Untag(b: seq<Byte>): nat {
    if |b| == 0 then 0 else 0x100 * Untag(b[..|b| - 1]) + b[|b| - 1]
  }

  lemma UntagTag(idx: nat)
    requires idx < 0x1_0000_0000
    ensures Untag(Tag(idx).value) == idx
  {
    var t := Tag(idx).value;
    assert t[..3][..2] == t[..2] && t[..2][..1] == t[..1] && t[..1][..0] == [];
    assert Untag(t[..1]) == t[0];
    assert Untag(t[..2]) == 0x100 * (t[0] as int) + t[1];
    assert Untag(t[..3]) == 0x100 * Untag(t[..2]) + t[2];
  }

  /** The number that four bytes write, most significant first. */
  function BigEndian(b: seq<Byte>): nat
    requires |b| == 4
  {
    0x100_0000 * b[0] as int + 0x1_0000 * b[1] as int + 0x100 * b[2] as int + b[3] as int
  }

  lemma UntagIs(b: seq<Byte>)
    requires |b| == 4
    ensures Untag(b) == BigEndian(b)
  {
    assert b[..3][..2] == b[..2] && b[..2][..1] == b[..1] && b[..1][..0] == [];
    assert Untag(b[..1]) == b[0];
    assert Untag(b[..2]) == 0x100 * (b[0] as int) + b[1];
    assert Untag(b[..3]) == 0x100 * Untag(b[..2]) + b[2];
  }

  /** The tag is the index in four bytes, most significant first. */
  lemma TagIs(idx: nat)
    ensures Tag(idx) == None <==> idx >= 0x1_0000_0000
    ensures idx < 0x1_0000_0000 ==> |Tag(idx).value| == 4 && BigEndian(Tag(idx).value) == idx
  {
    if idx < 0x1_0000_0000 {
      UntagTag(idx);
      UntagIs(Tag(idx).value);
    }
  }

  datatype Frame = Frame(header: seq<Byte>, body: Sealed)

  /** What the send loops put on the wire for a snapshot of `AV.key`. */
  function MakeFrame(snapshot: (nat, seq<Byte>), data: seq<Byte>): Option<Frame> {
    match (Encrypt(data, snapshot.1), Tag(snapshot.0))
    case (Some(body), Some(header)) => Some(Frame(header, body))
    case _ => None
  }

  datatype Delivery = Ignored | Opened(data: seq<Byte>) | DecryptionError

  /** What `on_message` does with a frame. */
  function Deliver(snapshot: (nat, seq<Byte>), me: string, sender: string, f: Frame): Delivery {
    if sender == me then Ignored
    else if Untag(f.header) != snapshot.0 then Ignored
    else
      match Decrypt(f.body, snapshot.1)
      case None => DecryptionError
      case Some(data) => Opened(data)
  }

  /** A frame between two snapshots with proper keys: ignored on different indices,
      opened on the same key, a decryption error otherwise. */
  lemma FrameOutcome(from: (nat, seq<Byte>), at: (nat, seq<Byte>), me: string, sender: string, data: seq<Byte>)
    requires IsAesKey(from.1) && IsAesKey(at.1) && from.0 < 0x1_0000_0000 && sender != me
    ensures MakeFrame(from, data).Some?
    ensures Deliver(at, me, sender, MakeFrame(from, data).value) ==
            if from.0 != at.0 then Ignored else if from.1 == at.1 then Opened(data) else DecryptionError
  {
    UntagTag(from.0);
  }

  /** The frame for a snapshot, if there is one: the index in four bytes and the data sealed
      under the key. */
  ghost predicate FramesBy(f: Option<Frame>, snapshot: (nat, seq<Byte>), data: seq<Byte>) {
    && (f.Some? <==> |snapshot.1| in {16, 24, 32} && snapshot.0 < 0x1_0000_0000)
    && (f.Some? ==>
          && |f.value.header| == 4 && BigEndian(f.value.header) == snapshot.0
          && f.value.body == Sealed(snapshot.1, data))
  }

  lemma MakeFrameLaw(snapshot: (nat, seq<Byte>), data: seq<Byte>)
    ensures FramesBy(MakeFrame(snapshot, data), snapshot, data)
  {
    TagIs(snapshot.0);
  }

  /** What becomes of a frame with a four-byte tag. */
  ghost predicate DeliversBy(d: Delivery, snapshot: (nat, seq<Byte>), me: string, sender: string, f: Frame)
    requires |f.header| == 4
  {
    d == if sender == me || BigEndian(f.header) != snapshot.0 then Ignored
         else if |snapshot.1| in {16, 24, 32} && f.body.key == snapshot.1 then Opened(f.body.data)
         else DecryptionError
  }

  lemma DeliverLaw(snapshot: (nat, seq<Byte>), me: string, sender: string, f: Frame)
    requires |f.header| == 4
    ensures DeliversBy(Deliver(snapshot, me, sender, f), snapshot, me, sender, f)
  {
    UntagIs(f.header);
  }

  class AVClientNamespace {
    const userId: string
    const av: AV
    /** What has been written to the output stream. */
    var played: seq<seq<Byte>>

    constructor (userId: string, av: AV)
      ensures this.userId == userId && this.av == av && played == []
    {
      this.userId, this.av, played := userId, av, [];
    }

    /** One turn of the video loop. */
    method SendVideo(data: seq<Byte>) returns (f: Option<Frame>)
      ensures f == MakeFrame(av.key, data)
      ensures FramesBy(f, av.key, data)
    {
      MakeFrameLaw(av.key, data);
      var (curKeyIdx, key) := av.key;
      var body := Encrypt(data, key);
      if body == None {
        return None;
      }
      var header := Tag(curKeyIdx);
      if header == None {
        return None;
      }
      f := Some(Frame(header.value, body.value));
    }

    /** One turn of the audio loop: a muted microphone is read but nothing is sent. */
    method SendAudio(muted: bool, data: seq<Byte>) returns (f: Option<Frame>)
      ensures f == if muted then None else MakeFrame(av.key, data)
      ensures !muted ==> FramesBy(f, av.key, data)
    {
      MakeFrameLaw(av.key, data);
      var (curKeyIdx, key) := av.key;
      if muted {
        return None;
      }
      var body := Encrypt(data, key);
      if body == None {
        return None;
      }
      var header := Tag(curKeyIdx);
      if header == None {
        return None;
      }
      f := Some(Frame(header.value, body.value));
    }

    method OnMessage(sender: string, f: Frame) returns (d: Delivery)
      modifies this
      ensures d == Deliver(av.key, userId, sender, f)
      ensures |f.header| == 4 ==> DeliversBy(d, av.key, userId, sender, f)
      ensures played == old(played) + if d.Opened? then [d.data] else []
    {
      if |f.header| == 4 {
        DeliverLaw(av.key, userId, sender, f);
      }
      if sender == userId {
        return Ignored;
      }
      var (curKeyIdx, key) := av.key;
      if Untag(f.header) != curKeyIdx {
        return Ignored;
      }
      var data := Decrypt(f.body, key);
      if data == None {
        return DecryptionError;
      }
      played := played + [data.value];
      d := Opened(data.value);
    }
  }

  // ----- two peers with the same key file -----

  /** From index 1 on, the index determines the key: chunk (index + 1) of the file, taken
      cyclically. */
  lemma FileIndexDeterminesKey(file: seq<Byte>, n: nat, t: nat)
    requires 0 < n <= |file|
    ensures |file| / n > 0
    ensures var (idx, key) := FileSnapshot(file, n, t);
            && idx == (if t == 0 then 0 else t - 1)
            && (idx >= 1 ==> key == Chunk(file, n, (idx + 1) % (|file| / n)))
  {
    FileKeysCycle(file, n, t);
  }

  /** A frame sent after `a` rotations meets a receiver after `b` rotations. It is taken
      up exactly if the indices agree, then opens whenever the index is at least 1, and at
      index 0 opens exactly if neither or both have rotated or the file's first two keys
      are equal. */
  lemma FilePeersAgree(file: seq<Byte>, n: nat, a: nat, b: nat, me: string, sender: string, data: seq<Byte>)
    requires (n == 16 || n == 24 || n == 32) && n <= |file| && sender != me
    requires FileSnapshot(file, n, a).0 < 0x1_0000_0000
    ensures MakeFrame(FileSnapshot(file, n, a), data).Some?
    ensures var (i, j) := (FileSnapshot(file, n, a).0, FileSnapshot(file, n, b).0);
            var d := Deliver(FileSnapshot(file, n, b), me, sender, MakeFrame(FileSnapshot(file, n, a), data).value);
            && (d == Ignored <==> i != j)
            && (i == j >= 1 ==> d == Opened(data))
            && (i == j == 0 ==> (d == Opened(data) <==> a == b || FileKeyAt(file, n, 0) == FileKeyAt(file, n, 1)))
  {
    var from, at := FileSnapshot(file, n, a), FileSnapshot(file, n, b);
    FileKeyLength(file, n, a);
    FileKeyLength(file, n, b);
    FrameOutcome(from, at, me, sender, data);
    if from.0 == at.0 >= 1 {
      assert a == b;
    } else if from.0 == at.0 {
      FirstTwoKeys(file, n, a, b);
    }
  }

  lemma FileKeyLength(file: seq<Byte>, n: nat, t: nat)
    requires 0 < n <= |file|
    ensures |FileSnapshot(file, n, t).1| == n
  {
  }

  lemma FirstTwoKeys(file: seq<Byte>, n: nat, a: nat, b: nat)
    requires 0 < n <= |file|
    requires FileSnapshot(file, n, a).0 == FileSnapshot(file, n, b).0 == 0
    ensures FileSnapshot(file, n, a).1 == FileSnapshot(file, n, b).1 <==>
            a == b || FileKeyAt(file, n, 0) == FileKeyAt(file, n, 1)
  {
  }

  /** Index 0 does go wrong: a frame sent before the first rotation is taken up and fails
      to open right after it. */
  lemma IndexZeroClash(data: seq<Byte>)
    ensures var file: seq<Byte> := seq(32, i => if i < 16 then 0 else 1);
            var f := MakeFrame(FileSnapshot(file, 16, 0), data);
            f.Some? && Deliver(FileSnapshot(file, 16, 1), "me", "peer", f.value) == DecryptionError
  {
    var file: seq<Byte> := seq(32, i => if i < 16 then 0 else 1);
    FilePeersAgree(file, 16, 0, 1, "me", "peer", data);
    FileKeysCycle(file, 16, 0);
    FileKeysCycle(file, 16, 1);
    assert Chunk(file, 16, 0)[0] == 0 && Chunk(file, 16, 1)[0] == 1;
  }

  // ----- when BB84 mode can send anything -----

  ghost predicate ValidRun(cfg: Config, first: RoundDraws, draws: seq<RoundDraws>) {
    first.Valid(cfg.numRawBits) && forall i :: 0 <= i < |draws| ==> draws[i].Valid(cfg.numRawBits)
  }

  ghost predicate PossibleRun(cfg: Config, first: RoundDraws, draws: seq<RoundDraws>) {
    first.Possible(cfg.channel) && forall i :: 0 <= i < |draws| ==> draws[i].Possible(cfg.channel)
  }

  /** The pair published after an initial round and the rounds of the loop encrypts and
      tags a frame. */
  ghost predicate Sends(cfg: Config, first: RoundDraws, draws: seq<RoundDraws>, data: seq<Byte>)
    requires ValidRun(cfg, first, draws)
  {
    MakeFrame(Bb84Snapshot(LastKey([], [Round(cfg, first)]), RoundsOf(cfg, draws)), data).Some?
  }

  ghost predicate CanSend(cfg: Config, data: seq<Byte>) {
    exists first, draws :: ValidRun(cfg, first, draws) && PossibleRun(cfg, first, draws) && Sends(cfg, first, draws, data)
  }

  /** The published key is empty or some round's. */
  lemma PublishedKeyOrigin(cfg: Config, first: RoundDraws, draws: seq<RoundDraws>) returns (d: RoundDraws)
    requires ValidRun(cfg, first, draws)
    ensures (d == first || d in draws) && d.Valid(cfg.numRawBits)
    ensures var key := LastKey(LastKey([], [Round(cfg, first)]), RoundsOf(cfg, draws));
            key == [] || Round(cfg, d).key == Some(key)
  {
    var rounds, r0 := RoundsOf(cfg, draws), Round(cfg, first);
    var i := KeyFromRounds(r0, rounds);
    d := if i < |rounds| then draws[i] else first;
  }

  /** So what is sent is sent under the key of some round. */
  lemma SentKeyFromRound(cfg: Config, first: RoundDraws, draws: seq<RoundDraws>, data: seq<Byte>)
    returns (d: RoundDraws, bytes: nat)
    requires ValidRun(cfg, first, draws) && Sends(cfg, first, draws, data)
    ensures (d == first || d in draws) && d.Valid(cfg.numRawBits)
    ensures 16 <= bytes <= 32 && RoundProperties.Delivers(cfg, d, bytes)
  {
    d := PublishedKeyOrigin(cfg, first, draws);
    bytes := |LastKey(LastKey([], [Round(cfg, first)]), RoundsOf(cfg, draws))|;
  }

  lemma KeyFromRounds(r0: RoundResult, rounds: seq<RoundResult>) returns (i: nat)
    ensures var key := LastKey(LastKey([], [r0]), rounds);
            if i < |rounds| then rounds[i].key == Some(key) else key == [] || r0.key == Some(key)
  {
    var initial := LastKey([], [r0]);
    assert [r0][..0] == [];
    LastKeyOrigin(initial, rounds);
    i := |rounds|;
    if r :| r in rounds && r.key == Some(LastKey(initial, rounds)) {
      i :| 0 <= i < |rounds| && rounds[i] == r;
    }
  }

  /** In BB84 mode some possible draws ever let a frame be sent if and only if 121 bits
      can come out of amplification: whatever the target, 128, 192 or 256 bits. */
  lemma Bb84SendsIff(cfg: Config, data: seq<Byte>)
    requires cfg.Valid()
    ensures CanSend(cfg, data) <==>
            && PhysicalLayer.CanClick(cfg.channel) && cfg.qberThreshold > 0.0
            && cfg.targetKeyLengthBits >= 121
            && RoundProperties.LongestRemainder(cfg) >= 185
  {
    RoundProperties.KeyReachableIff(cfg, 16);
    if RoundProperties.CanDeliver(cfg, 16) {
      var d: RoundDraws :| d.Valid(cfg.numRawBits) && d.Possible(cfg.channel) && RoundProperties.Delivers(cfg, d, 16);
      SendsAtOnce(cfg, d, data);
    }
    forall first: RoundDraws, draws: seq<RoundDraws>
      | ValidRun(cfg, first, draws) && PossibleRun(cfg, first, draws) && Sends(cfg, first, draws, data)
      ensures PhysicalLayer.CanClick(cfg.channel)
      ensures cfg.qberThreshold > 0.0 && cfg.targetKeyLengthBits >= 121 && RoundProperties.LongestRemainder(cfg) >= 185
    {
      var d, bytes := SentKeyFromRound(cfg, first, draws, data);
      RoundProperties.KeyNeedsRemainder(cfg, d, bytes);
      RoundProperties.KeyNeedsClicks(cfg, d);
    }
  }

  lemma SendsAtOnce(cfg: Config, d: RoundDraws, data: seq<Byte>)
    requires d.Valid(cfg.numRawBits) && d.Possible(cfg.channel) && RoundProperties.Delivers(cfg, d, 16)
    ensures CanSend(cfg, data)
  {
    var draws: seq<RoundDraws> := [];
    assert RoundsOf(cfg, draws) == [] && SuccessfulRounds([]) == {};
    assert LastKey([], [Round(cfg, d)]) == Round(cfg, d).key.value;
    assert Sends(cfg, d, draws, data);
    assert PossibleRun(cfg, d, draws);
  }

  /** With the default number of pulses and sample, exactly if the dead time is below
      21 ns. */
  lemma DefaultBb84SendsIff(cfg: Config, data: seq<Byte>)
    requires cfg.Valid()
    requires PhysicalLayer.CanClick(cfg.channel) && cfg.qberThreshold > 0.0
    requires cfg.numRawBits == 4096 && cfg.sampleFraction == 0.1 && cfg.targetKeyLengthBits >= 121
    ensures CanSend(cfg, data) <==> cfg.channel.deadTimeNs < 21.0
  {
    Bb84SendsIff(cfg, data);
    RoundProperties.DefaultRemainder(cfg);
  }

  /** With the default protocol and dead time no BB84 key ever fits AES: whatever is
      drawn, at every moment of every run no frame can be sent. */
  lemma DefaultBb84NeverSends(cfg: Config, first: RoundDraws, draws: seq<RoundDraws>, data: seq<Byte>)
    requires RoundProperties.DefaultProtocol(cfg) && cfg.channel.deadTimeNs == 50.0
    requires ValidRun(cfg, first, draws)
    ensures !Sends(cfg, first, draws, data)
  {
    RoundProperties.DefaultRemainder(cfg);
    if Sends(cfg, first, draws, data) {
      var d, bytes := SentKeyFromRound(cfg, first, draws, data);
      RoundProperties.KeyNeedsRemainder(cfg, d, bytes);
    }
  }
}
