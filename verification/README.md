# Quantum Video Chat: a verified model

A Dafny model of the repository's core: the BB84 key pipeline, the key sources and the
rotation loop that feed the encrypted streams, the signalling server, its session rooms and
its rate limiter. `dafny verify dfyconfig.toml` checks everything.

Every operation that the program performs step by step is a method or a class here, proved
to compute a function of its inputs and its old state; the theorems are lemmas about those
functions.

| file | models |
|---|---|
| `Bits.dfy`, `Toeplitz.dfy` | bit packing, Toeplitz hashing |
| `PhysicalLayer.dfy` | pulses, detector, dead time |
| `Cascade.dfy`, `CascadeLaws.dfy` | error correction in place, and what it does in terms of its inputs |
| `Protocol.dfy`, `RoundLaws.dfy`, `RoundProperties.dfy` | one BB84 round, its exact laws, and what every round guarantees |
| `Monitor.dfy` | QBER monitor |
| `KeySources.dfy`, `Rotation.dfy` | key file, hardware export, BB84 generator; rotation and frames |
| `Users.dfy`, `Signalling.dfy`, `Rooms.dfy` | user store, calls, rooms |
| `RateLimiter.dfy` | sliding-window limiter |

The specification functions are themselves pinned by laws that do not use them: which bits a
hash holds (`HoldsParities`), which positions share a block in which Cascade pass and which bit
a block loses (`CascadeObeys`), what every pulse reads (`DetectionLaw`), the estimate, the
secure length and the report of a round (`EstimateLaw`, `AmplifyLaw`, `RoundLaw`, `ReportLaw`),
what each step on the users does (`StepLaw`), which requests the limiter counts
(`KeptCounted`), what a snapshot says (`Describes`), and what a frame holds (`FramesBy`).

## What is assumed

- Every random draw is an input, and the theorems hold for all draws. Generators that are
  asked for data whose size is known only during a round (permutations, Toeplitz bits) are
  functions of that size. Where a theorem says that some draws reach a result, they are draws
  that the channel can produce: the photon counts fit the source intensity, the transmission
  and the detector efficiency (`PossiblePulse`); an eavesdropper may or may not be present.
- Floats are exact reals. `math.log2` is any function that is not positive between 0 and 1.
- Encryption is idealised: a ciphertext opens under its own key and no other, and keys of
  other than 16, 24 or 32 bytes are rejected, as the AES library does.
- A REST call or socket event is one atomic step, except where interleaving is the subject.
- A client's connection to a broadcast namespace is identified with its session socket.
- Files keep their contents while they are open.

## Main results

- Toeplitz hashing is exactly 2-universal: of all defining vectors exactly a fraction 2^-m
  makes two different inputs collide (`TwoUniversal`); more, every nonzero input reaches every
  output equally often (`HashUniform`).
- A Cascade pass removes exactly one error from every block with an odd number of them
  (`PassContract`). Alice's string comes out if and only if the last pass meets no block with
  two errors (`CascadeSucceedsIff`); for exactly two errors, if and only if in some pass their
  places have different quotients by the block size (`TwoErrorsCorrectedIff`); a string that fits one block is reconciled if and only if
  it had at most one error (`SingleBlockLimit`).
- For any channel and any eavesdropper, a sifted bit of Bob's differs from Alice's if and only
  if its outcome was random and came out wrong, or was not random and misalignment flipped it
  (`DisagreementLaw`).
- A round gives a key if and only if ten bits were sifted, the sampled errors stay below the
  threshold and 64 bits less than n(1 - 2h) is positive, and the key holds that many parities
  of the corrected string, up to the target (`RoundLaw`).
- n pulses with a dead time of D pulses never give more than ceil(n/D) - 58 key bits
  (`KeyLengthBound`). Some possible draws give a key of a given number of bytes if and only if
  the detector can be triggered, the QBER threshold is positive, and both the target and the
  longest possible remainder, less 64, reach into the key's last byte (`KeyReachableIff`).
  Hence, over all runs of the rotation loop, BB84 mode can send a frame if and only if 121
  bits can come out of amplification (`Bb84SendsIff`), for any target from 121 bits on.
- Two clients that read the same key file agree on the key at every index from 1 on; frames
  with index 0 open exactly under the condition of `FilePeersAgree`.
- Every run of the signalling server keeps users matched in pairs and gives each call a room
  of its two users (`NetRunsKeepInvariant`). A frame of the `frame` and `audio-frame` events
  never leaves its session (`FramesStayInSession`); it reaches the sender's current peer only,
  if and only if the session's other user has no socket there or is that peer
  (`FramesReachPeerIff`).
- When the checks and the commits of connections interleave in any order, users stay matched
  throughout if and only if every step is safe where it is taken (`SplitRunsMatchingIff`).
- Over any run of joins, leaves and attachments the broadcasts of a namespace stay within
  their sessions if and only if every step keeps its clients in one session
  (`BroadcastRunsConfinedIff`).
- For any clock readings the cache of the rate limiter holds the acceptances that no later
  request of the key has aged out, and it decides as the full history does if and only if none
  of the others has become young again (`DecisionRightIff`, `RunRightIff`). No key exceeds its
  maximum in any window, if and only if every acceptance found, in each span around its time,
  fewer than the maximum of cached and forgotten acceptances together (`CapIff`).

## Where the program falls short of its description

- With the default protocol settings (4096 pulses, 10% sample, 11% threshold, 128 bits) a full
  key is possible only for dead times below 21 ns; the default is 50 ns
  (`DefaultKeyReachableIff`). With 50 ns a surviving round has a clean sample, so Cascade never
  corrects anything, and it delivers at most 24 bits (`DefaultRoundsAreShort`). AES rejects
  such keys, so in BB84 mode no frame is ever sent (`DefaultBb84NeverSends`); targets of 192 or
  256 bits do not move that boundary (`DefaultBb84SendsIff`).
- Cascade is skipped whenever the sample happens to be clean; the hashed string is then Bob's,
  and Alice's only if the sifted strings agreed everywhere (`CleanSampleSkipsCascade`). It does
  happen: whatever key a configuration can deliver at all, it can deliver hashed from a string
  that is not Alice's (`MismatchReachableIff`).
- The initial key and the first rotated key both carry index 0 (`IndexZeroClash`).
- Every round with fewer than ten sifted bits is filed as an intrusion (`IntrusionMeaning`),
  also when no eavesdropper is there and the channel is dead (`DeadChannelFiledIff`).
- The check and the commit of a connection are separated by a call to the peer's client; two
  interleaved connections break the matching (`InterleavedConnects`). The exact condition is
  `CommitKeepsMatchingIff` for a commit and `SplitRunsMatchingIff` for a run; checking again at
  the commit would be enough (`RecheckSuffices`).
- Sessions are never closed: after a hang-up whoever shares a session with the caller still
  receives its frames (`HangUpLeavesRoomOpen`, `FrameAfterHangUp`).
- The encrypted, index-tagged frames do not travel through the rooms at all. They are sent on
  the namespaces `/video` and `/audio`, whose handler broadcasts to every client of the
  namespace and accepts every connection (shared/av/namespaces.py:77-82,
  server/socket_api.py:36-40, server/utils/av.py:56-59). Such a frame stays in its session if
  and only if every other client of the namespace has joined that session
  (`BroadcastStaysInSessionIff`), and in any run an outsider can attach
  (`OutsiderHearsBroadcast`).
- `/remove_user` does not disconnect first. The reported call count is then right if and only
  if at most one user is left dangling (`CallCountRightIff`, `TwoBareRemovalsMiscount`), and a
  new user is safe if and only if nobody still refers to its id (`AddKeepsMatchingIff`).
- The rate limiter reads the wall clock, and reads it before taking its lock. If a reading is
  earlier than one that has already pruned the key's list, forgotten acceptances can count
  again in the history but not in the cache. The decision then goes wrong exactly if they
  make up the difference to the maximum (`DecisionWrongIff`), and the cap is broken exactly if
  they fill a span up (`CapIff`). `ClockSteppingBack` is a run that breaks the cap,
  `WrongButCapped` one with a wrong decision that does not.
- The hash matrix is built from windows of one vector, row i starting at bit i, not from a
  first row and a first column as its comment says; the model follows the code. The repository's
  README.md names AES-128 CBC where the code uses GCM.

## Model

| member | source | states |
|---|---|---|
| Bits.BitsToBytes | shared/bb84/utils.py:23-36 | the loops compute the packing whose unpacking is the input followed by its zero padding |
| Bits.UnpackPack | shared/bb84/utils.py:23-41 | unpacking what was packed gives the bits and fewer than eight padding zeros |
| Bits.PackUnpack | shared/bb84/utils.py:23-41 | packing what was unpacked gives the bytes back |
| Bits.PackInjective | shared/bb84/utils.py:23-36 | equally long strings with equal bytes are equal |
| Bits.BitsOfIsShiftAndMask | shared/bb84/utils.py:39-41 | bit j of an unpacked byte is the shifted and masked value |
| Bits.UnpackAt | shared/bb84/utils.py:39-41 | bit i of the unpacked string is bit i mod 8, from the left, of byte i div 8 |
| Toeplitz.ToeplitzHash | shared/bb84/utils.py:44-84 | empty for an empty input or output; else bit i of the bytes is the parity of the places where input and window i are both one, and the padding is zero |
| Toeplitz.HashHoldsParities | shared/bb84/utils.py:70-84 | the same of the hash as a function |
| Toeplitz.HashLinear | shared/bb84/utils.py:78-84 | for a fixed vector the hash of a bitwise sum is the sum of the hashes |
| Toeplitz.HashUniform | shared/bb84/utils.py:70-84 | a nonzero input of n bits has every m-bit output under exactly 2^(n-1) vectors |
| Toeplitz.TwoUniversal | shared/bb84/utils.py:44-84 | different inputs give equal bytes under exactly 2^(n-1) of the 2^(n+m-1) vectors |
| PhysicalLayer.PolarizationRoundTrip | shared/bb84/physical_layer.py:68-76 | encoding bit and basis as a polarization is a bijection |
| PhysicalLayer.SinglePhotonDetector.Attempt | shared/bb84/physical_layer.py:147-211 | the branches of a detection attempt, and the detector's memory after it |
| PhysicalLayer.SinglePhotonDetector.Reset | shared/bb84/physical_layer.py:213-215 | the dead time history is cleared |
| PhysicalLayer.SimulateNPulses | shared/bb84/physical_layer.py:245-266 | the loop yields the events of a run that starts from the detector's memory |
| PhysicalLayer.DetectionsSpaced | shared/bb84/physical_layer.py:142-156 | two detections are at least max(1, int(dead time)) pulses apart |
| PhysicalLayer.DetectionsBounded | shared/bb84/physical_layer.py:147-189 | n pulses give at most ceil(n / dead time) detections |
| PhysicalLayer.DetectionsAttained | shared/bb84/physical_layer.py:147-189 | the bound is attained, after any number of pulses, when every pulse triggers by photon or dark count |
| PhysicalLayer.NoSourceNoDetection | shared/bb84/physical_layer.py:153-189 | where neither photons nor dark counts can trigger the detector it never clicks: afterpulses need an earlier click |
| PhysicalLayer.NoiselessReading | shared/bb84/physical_layer.py:191-202 | without dark counts and misalignment a detection in the sender's basis reads the sent bit |
| PhysicalLayer.DetectionLaw | shared/bb84/physical_layer.py:147-211 | for every pulse of a run: when it is detected, whether it reads the sent bit, its flip or the random bit, and when it is labelled dark count or afterpulse |
| Cascade.BinarySearchFlipsOneError | shared/bb84/protocol.py:362-383 | on a mismatched block exactly one bit is flipped, which lies in the block and was wrong |
| Cascade.BinarySearchCorrect | shared/bb84/protocol.py:362-383 | the recursion in place does that, within ceil(log2 of the block size) levels |
| Cascade.PassEffect | shared/bb84/protocol.py:346-358 | over disjoint blocks each error count loses its last bit; other bits and right bits stay |
| Cascade.PassContract | shared/bb84/protocol.py:339-358 | after a pass all blocks agree in parity, the distance dropped by the number of odd blocks, the rest is even, and is zero exactly if no block had two errors |
| Cascade.CascadeResidual | shared/bb84/protocol.py:310-360 | with a positive estimate an even number of original errors is left and the last pass's blocks agree |
| Cascade.CascadeSucceedsIff | shared/bb84/protocol.py:310-360 | Alice's string comes out exactly if the last pass meets no block with two errors |
| Cascade.FirstPassSuffices | shared/bb84/protocol.py:339-360 | the first pass alone completes exactly if no block of it holds two errors, and later passes change nothing then |
| Cascade.SingleErrorCorrected | shared/bb84/protocol.py:310-360 | a single error is corrected under every permutation |
| CascadeLaws.TwoErrorsCorrectedIff | shared/bb84/protocol.py:310-360 | two errors are corrected exactly if in one of the four passes their places have different quotients by the block size |
| CascadeLaws.PassBlocksAre | shared/bb84/protocol.py:336-347 | two entries of a pass's order share a block exactly if their places have the same quotient by its size; the orders are the positions and the drawn permutations, the sizes s, 2s, 4s, 8s up to n |
| CascadeLaws.SearchFlips | shared/bb84/protocol.py:362-383 | the flipped bit is where halving ends: the left half if it holds an odd number of errors, else the right |
| CascadeLaws.PassLaw | shared/bb84/protocol.py:345-358 | in every block of a pass: nothing changes with an even number of errors, else the one bit where halving ends |
| CascadeLaws.CascadeObeys | shared/bb84/protocol.py:310-360 | four passes in this order, each obeying its law for its order and size, lead from Bob's string to the result |
| Cascade.SingleBlockLimit | shared/bb84/protocol.py:336-340 | a string within the first block size loses at most one error in all, and is reconciled exactly if it had at most one |
| Cascade.NoEstimateNoCorrection | shared/bb84/protocol.py:332-333 | a zero estimate leaves Bob's string as it is |
| Cascade.CorrectInBlocks | shared/bb84/protocol.py:345-358 | the block loop in place computes the pass |
| Cascade.ErrorCorrectCascade | shared/bb84/protocol.py:310-360 | the four passes over a fresh copy compute the reconciled string |
| Protocol.Intercept | shared/bb84/protocol.py:152-166 | the interception loop resends every pulse; where the basis is still Alice's, so is the bit |
| Protocol.SiftKeys | shared/bb84/protocol.py:266-289 | the indices are exactly the matching detections in increasing order, with both sides' bits and the two rates |
| Protocol.SiftIsSifted | shared/bb84/protocol.py:266-278 | the sifting function meets that description on every prefix |
| Protocol.SiftedAtMostDetections | shared/bb84/protocol.py:274-281 | no more bits are sifted than detected, and as many when the bases agree everywhere |
| Protocol.CleanEstimate | shared/bb84/protocol.py:291-308 | the estimate is zero exactly for a sample without errors |
| Protocol.SecureEstimate | shared/bb84/protocol.py:301-307 | below the threshold the sample holds fewer than threshold * size errors |
| RoundLaws.EstimateLaw | shared/bb84/protocol.py:291-308 | the sample size, the errors counted in it, estimate times size equals errors, and secure exactly if the errors are below threshold times size |
| Protocol.SecureBitsBound | shared/bb84/protocol.py:399-407 | the secure length is at most the input length less 64, and exactly that at zero QBER |
| Protocol.EntropyNonNegative | shared/bb84/utils.py:11-20 | binary entropy is not negative |
| Protocol.Amplify | shared/bb84/protocol.py:385-418 | the branches of privacy amplification, and the hash at the end |
| RoundLaws.SecureLengthLaw | shared/bb84/protocol.py:399-407 | with h the entropy of the estimate the secure length L satisfies L + 64 <= n(1 - 2h) < L + 65 up to half a bit of entropy, and is -64 beyond |
| RoundLaws.AmplifyLaw | shared/bb84/protocol.py:385-418 | no key exactly if there are no bits or L is neither positive nor at the target; else min(L, target) parities, padded to bytes |
| Protocol.RunRound | shared/bb84/protocol.py:136-264 | the stages in order compute the round's result, all fields included, which has no key exactly if it aborted |
| RoundLaws.RoundLaw | shared/bb84/protocol.py:136-264 | the round gives a key exactly if ten bits were sifted, the sampled errors are below threshold times sample and L is positive; the key is the corrected remainder amplified |
| RoundLaws.CorrectionLaw | shared/bb84/protocol.py:219-232 | what is amplified: Bob's bits beyond the sample, or what the four passes make of them |
| RoundLaws.ReportLaw | shared/bb84/protocol.py:173-264 | every count of the report and the reason of every abort |
| RoundLaws.DisagreementLaw | shared/bb84/protocol.py:152-178 | for any channel and Eve: a sifted disagreement at pulse i exactly if a random outcome is not Alice's bit or another one is flipped |
| RoundProperties.RoundOutcome | shared/bb84/protocol.py:177-264 | a round survives exactly if enough bits were sifted, the estimate is below the threshold and bits are left to hash |
| RoundProperties.KeySize | shared/bb84/protocol.py:234-264 | the key holds min(target, secure) bits rounded up to bytes, fewer than were sifted |
| RoundProperties.HalfBitAborts | shared/bb84/protocol.py:399-412 | from half a bit of entropy on every round aborts, whatever its threshold |
| RoundProperties.SampleAccounting | shared/bb84/protocol.py:219-222 | errors found plus the distance of the remainders are the distance of the sifted strings |
| RoundProperties.KeyLengthBound | shared/bb84/protocol.py:136-264 | a surviving round of n pulses has at most ceil(n / dead time) - 58 key bits |
| RoundProperties.DisagreementIsInterception | shared/bb84/protocol.py:96-110 | on a noiseless channel every sifted disagreement is a pulse Eve intercepted in another basis than Alice's |
| RoundProperties.NoiselessRound | shared/bb84/protocol.py:152-264 | without noise and interception the QBER is zero, Alice's remainder is hashed, and success depends on length alone |
| RoundProperties.CleanOutcome | shared/bb84/protocol.py:201-264 | after a clean sample the QBER is zero, Bob's remainder is hashed, success depends on lengths alone, and the key is given |
| RoundProperties.AgreementOutcome | shared/bb84/protocol.py:201-264 | the same for any round whose sifted strings agree, with Alice's remainder |
| RoundProperties.CleanSampleSkipsCascade | shared/bb84/protocol.py:230-232 | after a clean sample Bob's remainder is hashed, Alice's exactly if the sifted strings agreed |
| RoundProperties.ReconciledIff | shared/bb84/protocol.py:201-232 | when exactly a round hashes Alice's own string |
| RoundProperties.CascadeNeedsLargeSample | shared/bb84/protocol.py:207-232 | a surviving round found fewer than threshold * sample size errors |
| RoundProperties.KeyReachableIff | shared/bb84/protocol.py:136-264 | some possible draws give a key of so many bytes exactly if the detector can be triggered, the threshold is positive, and target and longest remainder less 64 reach into the last byte |
| RoundProperties.MismatchReachableIff | shared/bb84/protocol.py:332-333 | some possible draws give a key of so many bytes after a clean sample from another string than Alice's, exactly if some give a key of so many bytes at all |
| RoundProperties.FullKeyReachableIff | shared/bb84/protocol.py:29-35 | in particular a key of the target length |
| RoundProperties.DefaultKeyReachableIff | shared/bb84/protocol.py:29-35 | at the default settings exactly if the dead time is below 21 ns |
| RoundProperties.DefaultRoundsAreShort | shared/bb84/physical_layer.py:48 | at the default dead time surviving rounds have QBER zero, no correction and at most 24 bits |
| RoundProperties.DeadRoundIff | shared/bb84/protocol.py:177-186 | without an eavesdropper some possible round detects nothing, exactly if there are no pulses or dark counts are not certain |
| Monitor.QBERMonitor.RecordRound | shared/bb84/qber_monitor.py:85-132 | one more round on the trace, with counters and bounded history to match, and a snapshot whose event and values describe the round |
| Monitor.QBERMonitor.GetHistory | shared/bb84/qber_monitor.py:134-137 | the last min(total, size) rounds, described in order |
| Monitor.QBERMonitor.GetSummary | shared/bb84/qber_monitor.py:139-161 | the summary of the retained history, of the counters over the whole trace and of the thresholds |
| Monitor.SummaryMeaning | shared/bb84/qber_monitor.py:139-161 | totals and bit sums of the whole trace, its last round, and the average of its last ten rounds as far as they are retained, rounded to six digits |
| Monitor.AverageLaw | shared/bb84/qber_monitor.py:144-145 | the average is zero of nothing, and times the number of values it grows by each further value |
| Monitor.Round6 | shared/bb84/qber_monitor.py:155 | rounding moves a value by at most half a millionth |
| Monitor.QBERMonitor.Reset | shared/bb84/qber_monitor.py:163-172 | the trace starts again |
| Monitor.TallyMeaning | shared/bb84/qber_monitor.py:115-126 | the counters are the numbers of rounds, successes and intrusions and the sums of sifted and final bits over the trace, evicted rounds included |
| KeySources.FileKeyGenerator.GenerateKey | shared/encryption.py:268-293 | all three error paths keep the key; otherwise the next bytes, wrapping to the start |
| KeySources.FileKeysCycle | shared/encryption.py:268-284 | a fresh generator's call k gives chunk k mod floor(L/n) and leaves the position behind it |
| KeySources.FileKeyBytes | shared/encryption.py:268-284 | the same byte for byte |
| KeySources.MATLABBridge.GetRawKeyMaterial | shared/bb84/hardware_bridge.py:83-102 | what is left of the file, then once more from its start; an error if it is missing |
| KeySources.RequestServed | shared/bb84/hardware_bridge.py:95-102 | a request is served in full exactly if it fits into the rest of the file plus one copy of it |
| KeySources.BridgeStreamCyclic | shared/bb84/hardware_bridge.py:83-102 | whatever is requested, the bytes delivered are the cyclic repetition of the file |
| KeySources.BridgeStreamComplete | shared/bb84/hardware_bridge.py:83-102 | requests up to the file length are all served in full |
| KeySources.BB84KeyGenerator.GenerateKey | shared/encryption.py:326-341 | runs and reports one round and takes its key unless it aborted |
| Rotation.AV.StartFile | server/utils/av.py:61-81 | index 0 and the file's first key, or exactly the generator's error |
| Rotation.AV.StartBb84 | server/utils/av.py:61-91 | index 0 and the unmonitored first round's key, or the empty key |
| Rotation.AV.RotateFileKeys | server/utils/av.py:95-133 | after t rotations the published pair is index max(0, t-1) with file key t |
| Rotation.AV.RotateBb84 | server/utils/av.py:97-120 | an aborted round changes neither index nor key, another publishes its key under the next index |
| Rotation.AV.RotateBb84Keys | server/utils/av.py:95-133 | over any series of rounds the pair is the last successful key at index max(0, successes - 1) |
| Rotation.PublishedPair | server/utils/av.py:96-120 | at every moment: the initial key at index 0 before any success, then the latest success's key under the number of successes less one |
| Rotation.SnapshotMeaning | server/utils/av.py:96-120 | the same for any sequence of rounds in which those without a key are those that aborted |
| Rotation.LastKeyIsLatestSuccess | server/utils/av.py:103-119 | the published key is that of the latest round that did not abort |
| Rotation.LastKeyWithoutSuccess | server/utils/av.py:103-116 | with no success the initial key stays |
| Rotation.IntrusionMeaning | shared/bb84/qber_monitor.py:92-97 | a round is filed as an intrusion exactly if fewer than ten bits were sifted and the threshold is at most one, or it aborted with an estimate from the threshold on |
| Rotation.DeadChannelFiledIff | shared/bb84/qber_monitor.py:92-97 | some possible round without an eavesdropper detects nothing and is filed as an intrusion, exactly if the threshold is at most one and silence is possible |
| Rotation.UntagTag | shared/av/namespaces.py:169-183 | the four-byte tag determines every index below 2^32 |
| Rotation.TagIs | shared/av/namespaces.py:169-183 | the tag is the index in four bytes, most significant first, and fails from 2^32 on |
| Rotation.AVClientNamespace.SendAudio | shared/av/namespaces.py:161-170 | no frame when muted; else one exactly if the key has 16, 24 or 32 bytes and the index fits four, with the tag and the data sealed under the key |
| Rotation.AVClientNamespace.SendVideo | shared/av/namespaces.py:235-277 | the same for the video loop |
| Rotation.AVClientNamespace.OnMessage | shared/av/namespaces.py:174-186 | own and differently tagged frames are dropped; the rest is decrypted and played |
| Rotation.FrameOutcome | shared/av/namespaces.py:285-297 | between two snapshots: ignored on different indices, opened on the same key, else an error |
| Rotation.FileIndexDeterminesKey | server/utils/av.py:95-120 | from index 1 on, index i means chunk (i+1) mod floor(L/n) |
| Rotation.FileSnapshotLaw | server/utils/av.py:95-133 | index and key after t rotations, byte for byte |
| Rotation.FilePeersAgree | shared/av/namespaces.py:174-184 | an accepted frame opens at every index from 1 on, and at index 0 exactly if the peers rotated alike or the first two keys are equal |
| Rotation.IndexZeroClash | server/utils/av.py:78-120 | a 32-byte file for which an accepted frame with index 0 fails to open |
| Rotation.Bb84SendsIff | server/utils/av.py:95-120 | over all runs some possible draws let a frame be sent exactly if clicks are possible, the threshold is positive, the target is at least 121 bits and the longest remainder 185 |
| Rotation.DefaultBb84SendsIff | shared/bb84/protocol.py:29-35 | with the default pulses and sample, and any target from 121 bits on, exactly if the dead time is below 21 ns |
| Rotation.DefaultBb84NeverSends | shared/encryption.py:83-88 | at the default BB84 settings no key that is ever published can encrypt a frame |
| Users.UserManager.GenerateUserId | server/utils/user_manager.py:160-167 | the first of a hundred drawn ids that is not stored, or the fallback if all of them are |
| Users.UserManager.AddUser | server/utils/user_manager.py:169-179 | a new idle user under the first free id; a duplicate needs a stored fallback and a hundred stored draws |
| Users.UserManager.SetUserState | server/utils/user_manager.py:181-195 | idle exactly without a peer, or an error and no change |
| Users.UserManager.RemoveUser | server/utils/user_manager.py:208-214 | the user is gone, whether or not it was there |
| Users.DictUserStorage.Add | server/utils/user_manager.py:85-91 | stored, or a duplicate error and no change |
| Users.DictUserStorage.Update | server/utils/user_manager.py:93-99 | replaced, or a not-found error and no change |
| Users.DictUserStorage.Get | server/utils/user_manager.py:101-107 | the user, or a not-found error |
| Users.DictUserStorage.Remove | server/utils/user_manager.py:109-115 | removed, or a not-found error |
| Signalling.ConnectKeepsMatching | server/peer_manager.py:21-77 | an atomic connect keeps the matching, pairs exactly the two users on success and changes nothing on any error |
| Signalling.ConnectLaw | server/peer_manager.py:21-77 | connect on the users: which error when, no change with one, else the two connected to each other |
| Signalling.CommitLaw | server/peer_manager.py:72-74 | the commit alone, also when a user has gone by then |
| Signalling.CommitKeepsMatchingIff | server/peer_manager.py:72-74 | the commit alone keeps it exactly if the caller is gone or no third user holds either side |
| Signalling.SplitRunsMatchingIff | server/peer_manager.py:21-107 | in runs where checks and commits come apart users are matched throughout exactly if every added id is unreferenced and every commit finds its caller gone or no third party |
| Signalling.SplitStepLaw | server/peer_manager.py:41-74 | what a separate check and a separate commit do |
| Signalling.InterleavedConnects | server/peer_manager.py:41-74 | a run of three added users, two checks of one peer and their commits, which breaks the matching |
| Signalling.DisconnectFrees | server/peer_manager.py:79-107 | exactly the caller and its peer become idle |
| Signalling.DisconnectLaw | server/peer_manager.py:79-115 | disconnect in any state: its errors, and the user and its peer idle |
| Signalling.DisconnectKeepsMatching | server/peer_manager.py:79-107 | the matching is kept, and no peer becomes unregistered |
| Signalling.AddKeepsMatchingIff | server/utils/user_manager.py:160-179 | a new user keeps the matching exactly if nobody refers to its id |
| Signalling.RemoveKeepsClosedIff | server/server.py:71-79 | a removal leaves nobody dangling exactly if the user was not in a call |
| Signalling.AdminRemoveKeeps | server/admin_routes.py:155-159 | disconnect-then-remove keeps the matching and leaves nobody dangling |
| Signalling.AdminRemoveLaw | server/admin_routes.py:155-159 | the user is gone and its peer idle |
| Signalling.StepLaw | server/peer_manager.py:21-107 | what each step of a run does to the users |
| Signalling.RunsKeepMatching | server/peer_manager.py:21-107 | every run of add, connect, disconnect and remove keeps the matching if ids in use as peers are not given out |
| Signalling.CleanRunsAreClosed | server/admin_routes.py:149-160 | without bare removals every run keeps it unconditionally, with every peer registered |
| Signalling.ConnectedCount | server/admin_routes.py:78-84 | connected users are twice the calls plus the dangling users |
| Signalling.CallCountRightIff | server/admin_routes.py:81-84 | the reported call count is the number of calls plus half the dangling users, right exactly if at most one dangles |
| Signalling.TwoBareRemovalsMiscount | server/rest_api.py:195-204 | bare removals in two calls make the count one too high |
| Signalling.CleanRunsCountCalls | server/admin_routes.py:78-84 | without bare removals the connected count is even and the call count right |
| Signalling.Server.HandlePeerConnection | server/peer_manager.py:21-77 | checks, errors in order, a room for the two even when the call is refused, and the two users connected |
| Signalling.Server.DisconnectPeer | server/peer_manager.py:79-115 | the disconnect step, with the lookup error for an unregistered peer |
| Signalling.Server.AdminRemoveUser | server/admin_routes.py:155-159 | disconnect whatever it raises, then remove |
| Signalling.Server.AdminStatus | server/admin_routes.py:75-84 | user count, and half the connected users, which are the calls plus half the dangling users |
| Signalling.NetRunsKeepInvariant | server/peer_manager.py:50-74 | every run of REST calls and socket events keeps rooms for two and a room for every call |
| Signalling.NetStepLaw | server/peer_manager.py:50-74 | what each step does to users, rooms and namespaces |
| Signalling.FramesStayInSession | server/socket_api.py:122-147 | at every moment of every run frames reach only sockets of the two users of the sender's session |
| Signalling.FramesReachPeerIff | server/socket_api.py:122-147 | they reach the sender's current peer only, exactly if the session's other user has no socket in it or is that peer |
| Signalling.HangUpLeavesRoomOpen | server/peer_manager.py:79-107 | after any run, a disconnect does not stop frames to the sockets that share the caller's session |
| Signalling.FrameAfterHangUp | server/peer_manager.py:96-105 | a run of call, two joins and hang-up after which the second user still hears the first |
| Signalling.BroadcastStaysInSessionIff | shared/av/namespaces.py:80-82 | one broadcast reaches only the sender's session exactly if every other client of the namespace has joined it |
| Signalling.BroadcastRunsConfinedIff | shared/av/namespaces.py:77-85 | in a whole run none leaves its session, exactly if every socket attaches only next to clients of its own session and no client leaves its session next to others |
| Signalling.OutsiderHearsBroadcast | shared/av/namespaces.py:77-82 | after any run another socket may attach to the namespace and receives what no session relay would give it |
| Rooms.SocketAPI.CreateSession | server/socket_api.py:59-64 | the session expects exactly the given users |
| Rooms.SocketAPI.OnConnect | server/socket_api.py:68-111 | every rejection, and on acceptance the socket's entry, room and room id |
| Rooms.SocketAPI.OnFrame | server/socket_api.py:122-134 | the frame's session, sender and receivers, or nothing for an unknown socket |
| Rooms.SocketAPI.OnDisconnect | server/socket_api.py:149-160 | the socket leaves its session and room |
| Rooms.JoinKeepsConsistentIff | server/socket_api.py:99-100 | rooms stay right exactly if the accepted socket id is not live in another session |
| Rooms.LeaveKeepsConsistent | server/socket_api.py:149-160 | a disconnect keeps sockets and rooms consistent |
| Rooms.RoomIdWhenComplete | server/socket_api.py:102-110 | a room id goes out exactly when the connected users are the expected ones |
| Rooms.RelayReach | server/socket_api.py:122-147 | a frame reaches precisely the other sockets of the sender's session, all of expected users |
| Rooms.RelaySymmetric | server/socket_api.py:122-147 | of two sockets either both hear each other or neither does |
| Rooms.BroadcastConfinedIff | shared/av/namespaces.py:80-82 | in one state: a broadcast stays within the relay's receivers exactly if every other client shares the sender's session |
| Rooms.BroadcastFlaskNamespace.OnMessage | shared/av/namespaces.py:80-82 | message and stated user id go to every client of the namespace but the sender |
| Rooms.BroadcastFlaskNamespace.OnConnect | shared/av/namespaces.py:77-78 | every connection is accepted |
| RateLimiter.RateLimiter.IsAllowed | server/rest_api.py:32-44 | for every clock reading: allowed exactly if fewer than the maximum of accepted requests are younger than the window and not aged out since, which are the history's recent acceptances less the reentering ones; one more entry in cache and log to match |
| RateLimiter.CacheStaysKept | server/rest_api.py:36-43 | after any log the cache holds, for every key, the acceptances that no later request of the key has aged out, and no empty list |
| RateLimiter.KeptCounted | server/rest_api.py:36-41 | what the cache counts: accepted requests of the key younger than the window, not followed by one a window or more later |
| RateLimiter.DecisionRightIff | server/rest_api.py:34-41 | after any log and for any reading the cache decides as the full history, for all maxima, exactly if nothing aged out reenters the window |
| RateLimiter.DecisionWrongIff | server/rest_api.py:34-41 | for one maximum the decisions differ exactly if it lies above the cached count and not above cached and reentering together |
| RateLimiter.RunRightIff | server/rest_api.py:32-44 | a run is decided throughout as by the full history exactly if no reentry makes up the difference at any request |
| RateLimiter.ChronologicalRunsAreRight | server/rest_api.py:32-44 | that holds when each key's requests come in the order of the clock |
| RateLimiter.CapIff | server/rest_api.py:22-44 | for any clock readings no key has more than the maximum of acceptances in any span shorter than the window, exactly if at every acceptance each span around its time holds fewer cached and forgotten ones together |
| RateLimiter.SpanDifference | server/rest_api.py:36-43 | the acceptances in a span are the cached ones and those that later requests have aged out |
| RateLimiter.InSpanCounts | server/rest_api.py:36-43 | a span's acceptances are its accepted requests of the key |
| RateLimiter.AtMostMaxPerWindow | server/rest_api.py:22-44 | in particular the cap holds in rightly decided runs |
| RateLimiter.SpacedAcceptances | server/rest_api.py:22-44 | in clock order, acceptance i + max comes at least a window after acceptance i |
| RateLimiter.ClockSteppingBack | server/rest_api.py:34-38 | a run of the limiter with a clock that steps back, in which an acceptance finds a full span and the cap is exceeded |
| RateLimiter.WrongButCapped | server/rest_api.py:34-38 | a run of the limiter with a wrong decision in which the cap holds |

## Left out

- Flask routing, Socket.IO transport, HTTP, TLS, logging, configuration files: I/O. Of the call to a client only its outcome is kept, as an input; of the transport only room membership.
- AES-GCM, the random generators, photon statistics, `log2`: library or statistical behaviour, replaced as said above.
- Rounding of floats, including `int(0.73 / qber)`: reals are exact.
- Thread timing: a rotation is a series of turns and readers see `AV.key` as a whole; the stop event ends the series.
- Agreement of two peers in BB84 mode: each simulates both ends of its own channel, so their keys have nothing to do with each other.
- Monitor listeners, and summaries read while a round is being recorded.
- Users are values in the store, so aliasing of user objects is not modelled; the program only hands out copies. `PeerConnectionManager` and the admin routes are methods of `Server`.
- The XOR and debug schemes, random and debug key generators, registries, `HardwareKeyGenerator`, `QiskitValidator` and `KeyClientNamespace`: settled by reading one function, or not in use.
- The session text message handler, `emit_qber_update`, the event log, health checks, middleware threads, website, cameras and microphones: plumbing.
- A negative key length, which reads the rest of the file: key lengths are natural numbers.
- Monitor.QBERMonitor.RecordRound: does not record the wall-clock timestamp, on which nothing depends, or notify listeners, which are outside code.
- Rotation.AVClientNamespace.SendAudio: leaves out the branch without encryption, because `AV` always sets a scheme.
- Rotation.FilePeersAgree: idealises the cipher, so a wrong key never opens a frame.
- Signalling.Server.HandlePeerConnection: is one atomic step, in which the final state changes cannot raise; `CommitLaw` says what they raise once a user has gone.
- Signalling.FramesStayInSession: assumes, like all results on runs with rooms, that session ids and socket ids are fresh when they appear.
- Signalling.RunsKeepMatching: assumes that an id still referred to as a peer is not given out again, because `generate_user_id` avoids stored ids only; `AddKeepsMatchingIff` gives the exact condition.
