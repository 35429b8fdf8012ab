/** Where keys come from: the key file, the hardware export, and simulated BB84
    (shared/encryption.py, shared/bb84/hardware_bridge.py). */
module KeySources {
  import opened Wrappers
  import opened Bits
  import opened Protocol
  import opened Monitor

  /** `f.read(n)` at a position. */
  function ReadAt(file: seq<Byte>, pos: nat, n: nat): seq<Byte>
    requires pos <= |file|
  {
    file[pos..if pos + n <= |file| then pos + n else |file|]
  }

  datatype KeyError = ValueError | FileTooSmall | FileNotFound

  // ----- the key file -----

  /** One `generate_key`: the bytes, or None for a file that is too small, and the new
      position. */
  function FileKey(file: seq<Byte>, pos: nat, n: nat): (r: (Option<seq<Byte>>, nat))
    requires pos <= |file|
    ensures r.1 <= |file|
    ensures r.0.Some? ==> |r.0.value| == n
  {
    if pos + n <= |file| then (Some(file[pos..pos + n]), pos + n)
    else if n <= |file| then (Some(file[..n]), n)
    else (None, |file|)
  }

  class FileKeyGenerator {
    const file: seq<Byte>
    /** Whether the file can be opened. */
    const present: bool
    var key: seq<Byte>
    var keyLength: nat
    /** The read position, once the file has been opened. */
    var handle: Option<nat>

    ghost predicate Valid()
      reads this
    {
      handle.Some? ==> present && handle.value <= |file|
    }

    ghost function Position(): nat
      reads this
    {
      if handle.Some? then handle.value else 0
    }

    constructor (file: seq<Byte>, present: bool, keyLength: nat := 0)
      ensures Valid() && this.file == file && this.present == present && key == [] && this.keyLength == keyLength && handle == None
    {
      this.file, this.present, this.keyLength := file, present, keyLength;
      key, handle := [], None;
    }

    /** A key is replaced only by a full read; all errors keep the old one. */
    method GenerateKey(length: nat) returns (r: Result<(), KeyError>)
      requires Valid()
      modifies this
      ensures Valid()
      ensures keyLength == if length != 0 then length else old(keyLength)
      ensures keyLength == 0 ==> r == Err(ValueError) && key == old(key) && handle == old(handle)
      ensures keyLength > 0 && !present ==> r == Err(FileNotFound) && key == old(key) && handle == None
      ensures keyLength > 0 && present ==>
                var n, pos := (keyLength + 7) / 8, old(if handle.Some? then handle.value else 0);
                if pos + n <= |file| then r == Ok(()) && key == file[pos..pos + n] && handle == Some(pos + n)
                else if n <= |file| then r == Ok(()) && key == file[..n] && handle == Some(n)
                else r == Err(FileTooSmall) && key == old(key) && handle == Some(|file|)
      ensures keyLength > 0 && present ==>
                var (data, pos) := FileKey(file, old(Position()), (keyLength + 7) / 8);
                && handle == Some(pos)
                && r == (if data.Some? then Ok(()) else Err(FileTooSmall))
                && key == if data.Some? then data.value else old(key)
    {
      if length != 0 {
        keyLength := length;
      } else if keyLength < 1 {
        return Err(ValueError);
      }
      var numBytes := (keyLength + 7) / 8;
      if handle == None {
        if !present {
          return Err(FileNotFound);
        }
        handle := Some(0);
      }
      var data := ReadAt(file, handle.value, numBytes);
      handle := Some(handle.value + |data|);
      if |data| < numBytes {
        data := ReadAt(file, 0, numBytes);
        handle := Some(|data|);
        if |data| < numBytes {
          return Err(FileTooSmall);
        }
      }
      key := data;
      return Ok(());
    }

    method Close()
      modifies this
      ensures handle == None && key == old(key) && keyLength == old(keyLength)
    {
      handle := None;
    }
  }

  /** The `c`-th chunk of `n` bytes. */
  function Chunk(file: seq<Byte>, n: nat, c: nat): seq<Byte>
    requires n > 0 && c < |file| / n
  {
    MultiplyMonotone(c + 1, |file| / n, n);
    file[c * n..(c + 1) * n]
  }

  /** The position after `calls` fresh reads of `n` bytes. */
  function FilePosition(file: seq<Byte>, n: nat, calls: nat): (pos: nat)
    ensures pos <= |file|
  {
    if calls == 0 then 0 else FileKey(file, FilePosition(file, n, calls - 1), n).1
  }

  /** The key that the call number `call` (from zero) of a fresh generator produces. */
  function FileKeyAt(file: seq<Byte>, n: nat, call: nat): Option<seq<Byte>> {
    FileKey(file, FilePosition(file, n, call), n).0
  }

  /** A fresh generator walks through the whole chunks of the file in order and starts
      again; the bytes beyond the last whole chunk are never used. */
  lemma {:induction false} FileKeysCycle(file: seq<Byte>, n: nat, call: nat)
    requires 0 < n <= |file|
    ensures |file| / n > 0
    ensures FileKeyAt(file, n, call) == Some(Chunk(file, n, call % (|file| / n)))
    ensures FilePosition(file, n, call + 1) == (call % (|file| / n) + 1) * n
  {
    var q := |file| / n;
    WholeChunks(file, n);
    if call == 0 {
      assert 0 % q == 0;
      FileKeyStarts(file, n);
    } else {
      FileKeysCycle(file, n, call - 1);
      NextModulo(call - 1, q);
      FileKeyAdvances(file, n, (call - 1) % q);
    }
  }

  /** Byte for byte: key number `call` is the file from `call % q` whole keys on, where the
      file holds `q` whole keys. */
  lemma FileKeyBytes(file: seq<Byte>, n: nat, call: nat)
    requires 0 < n <= |file|
    ensures var q := |file| / n;
            && q > 0 && FileKeyAt(file, n, call).Some? && |FileKeyAt(file, n, call).value| == n
            && (call % q) * n + n <= |file|
            && forall j :: 0 <= j < n ==> FileKeyAt(file, n, call).value[j] == file[(call % q) * n + j]
  {
    var q := |file| / n;
    FileKeysCycle(file, n, call);
    var c := call % q;
    WholeChunks(file, n);
    MultiplyMonotone(c + 1, q, n);
    assert (c + 1) * n == c * n + n;
  }

  lemma WholeChunks(file: seq<Byte>, n: nat)
    requires 0 < n <= |file|
    ensures 0 < |file| / n && |file| / n * n <= |file| < |file| / n * n + n
  {
  }

  lemma FileKeyStarts(file: seq<Byte>, n: nat)
    requires 0 < n <= |file| && 0 < |file| / n
    ensures FileKey(file, 0, n) == (Some(Chunk(file, n, 0)), n)
  {
  }

  /** After chunk `c` comes the next one, or the first. */
  lemma FileKeyAdvances(file: seq<Byte>, n: nat, c: nat)
    requires 0 < n <= |file| && c < |file| / n && (c + 1) * n <= |file|
    ensures FileKey(file, (c + 1) * n, n) ==
            if c + 1 < |file| / n then (Some(Chunk(file, n, c + 1)), (c + 1 + 1) * n) else (Some(Chunk(file, n, 0)), 1 * n)
  {
    var q := |file| / n;
    WholeChunks(file, n);
    assert (c + 1 + 1) * n == (c + 1) * n + n;
    if c + 1 < q {
      MultiplyMonotone(c + 2, q, n);
    } else {
      FileKeyStarts(file, n);
    }
  }

  lemma NextModulo(x: nat, q: nat)
    requires q > 0
    ensures (x + 1) % q == if x % q + 1 < q then x % q + 1 else 0
  {
    var d, m := x / q, x % q;
    assert x + 1 == d * q + (m + 1);
    if m + 1 < q {
      ModuloOf(d, m + 1, q);
    } else {
      assert x + 1 == (d + 1) * q + 0;
      ModuloOf(d + 1, 0, q);
    }
  }

  lemma ModuloOf(d: nat, m: nat, q: nat)
    requires m < q
    ensures (d * q + m) % q == m
  {
    var y := d * q + m;
    var e, k := y / q, y % q;
    assert y == e * q + k;
    if e < d { MultiplyMonotone(e + 1, d, q); }
    if d < e { MultiplyMonotone(d + 1, e, q); }
  }

  // ----- the hardware export -----

  /** One request: what is left of the file, then once more from its start. */
  function BridgeRead(file: seq<Byte>, pos: nat, length: nat): (r: (seq<Byte>, nat))
    requires pos <= |file|
    ensures r.1 <= |file|
  {
    var data := ReadAt(file, pos, length);
    if |data| < length then
      var more := ReadAt(file, 0, length - |data|);
      (data + more, |more|)
    else (data, pos + |data|)
  }

  class MATLABBridge {
    /** The exported key file, if it exists. */
    const keyFile: Option<seq<Byte>>
    var fileHandle: Option<nat>

    ghost predicate Valid()
      reads this
    {
      fileHandle.Some? ==> keyFile.Some? && fileHandle.value <= |keyFile.value|
    }

    constructor (keyFile: Option<seq<Byte>>)
      ensures Valid() && this.keyFile == keyFile && fileHandle == None
    {
      this.keyFile := keyFile;
      fileHandle := None;
    }

    method GetRawKeyMaterial(lengthBytes: nat) returns (r: Result<seq<Byte>, KeyError>)
      requires Valid()
      modifies this
      ensures Valid()
      ensures keyFile == None ==> r == Err(FileNotFound) && fileHandle == None
      ensures keyFile.Some? ==>
                var pos := if old(fileHandle).Some? then old(fileHandle).value else 0;
                var (data, pos') := BridgeRead(keyFile.value, pos, lengthBytes);
                r == Ok(data) && fileHandle == Some(pos')
    {
      if fileHandle == None {
        if keyFile == None {
          return Err(FileNotFound);
        }
        fileHandle := Some(0);
      }
      var data := ReadAt(keyFile.value, fileHandle.value, lengthBytes);
      fileHandle := Some(fileHandle.value + |data|);
      if |data| < lengthBytes {
        var remaining := lengthBytes - |data|;
        var more := ReadAt(keyFile.value, 0, remaining);
        fileHandle := Some(|more|);
        data := data + more;
      }
      return Ok(data);
    }

    method Close()
      requires Valid()
      modifies this
      ensures Valid() && fileHandle == None
    {
      fileHandle := None;
    }
  }

  /** All the bytes that a series of requests delivers from a fresh bridge, and the
      position after it. */
  function BridgeStream(file: seq<Byte>, lengths: seq<nat>): (r: (seq<Byte>, nat))
    ensures r.1 <= |file|
  {
    if |lengths| == 0 then ([], 0)
    else
      var (before, pos) := BridgeStream(file, lengths[..|lengths| - 1]);
      var (data, pos') := BridgeRead(file, pos, lengths[|lengths| - 1]);
      (before + data, pos')
  }

  /** A request wraps at most once: it is served in full exactly when it fits into the
      rest of the file plus the whole file, so always when it is no longer than the file. */
  lemma RequestServed(file: seq<Byte>, pos: nat, length: nat)
    requires pos <= |file|
    ensures |BridgeRead(file, pos, length).0| ==
            if length <= |file| - pos + |file| then length else |file| - pos + |file|
    ensures length <= |file| ==> |BridgeRead(file, pos, length).0| == length
  {
  }

  lemma AddModulo(x: nat, y: nat, k: nat, q: nat)
    requires q > 0 && x % q == y % q
    ensures (x + k) % q == (y + k) % q
  {
    var d, e, m := x / q, y / q, x % q;
    assert x == d * q + m && y == e * q + m;
    ShiftModulo(d, m, k, q);
    ShiftModulo(e, m, k, q);
  }

  lemma ShiftModulo(d: nat, m: nat, k: nat, q: nat)
    requires m < q
    ensures (d * q + m + k) % q == (m + k) % q
  {
    var f, g := (m + k) / q, (m + k) % q;
    assert m + k == f * q + g;
    assert (d + f) * q == d * q + f * q;
    assert d * q + m + k == (d + f) * q + g;
    ModuloOf(d + f, g, q);
  }

  lemma SmallModulo(x: nat, q: nat)
    requires q > 0
    ensures x < q ==> x % q == x
    ensures q <= x < 2 * q ==> x % q == x - q
    ensures x == 2 * q ==> x % q == 0
  {
    if q <= x < 2 * q { ModuloOf(1, x - q, q); }
    if x == 2 * q { ModuloOf(2, 0, q); }
  }

  lemma BridgeReadCyclic(file: seq<Byte>, pos: nat, length: nat)
    requires |file| > 0 && pos <= |file|
    ensures var (data, pos') := BridgeRead(file, pos, length);
            && (forall k :: 0 <= k < |data| ==> data[k] == file[(pos + k) % |file|])
            && (pos + |data|) % |file| == pos' % |file|
  {
    var (data, pos') := BridgeRead(file, pos, length);
    forall k | 0 <= k < |data| ensures data[k] == file[(pos + k) % |file|] {
      SmallModulo(pos + k, |file|);
    }
    SmallModulo(pos + |data|, |file|);
    SmallModulo(pos', |file|);
  }

  /** Whatever the requests, the delivered bytes are the cyclic repetition of the file. */
  lemma {:induction false} BridgeStreamCyclic(file: seq<Byte>, lengths: seq<nat>)
    requires |file| > 0
    ensures var (stream, pos) := BridgeStream(file, lengths);
            && (forall j :: 0 <= j < |stream| ==> stream[j] == file[j % |file|])
            && |stream| % |file| == pos % |file|
  {
    if |lengths| > 0 {
      var shorter, length := lengths[..|lengths| - 1], lengths[|lengths| - 1];
      BridgeStreamCyclic(file, shorter);
      var (before, pos) := BridgeStream(file, shorter);
      var (data, pos') := BridgeRead(file, pos, length);
      BridgeReadCyclic(file, pos, length);
      forall j | 0 <= j < |before + data| ensures (before + data)[j] == file[j % |file|] {
        if j >= |before| {
          AddModulo(|before|, pos, j - |before|, |file|);
        }
      }
      AddModulo(|before|, pos, |data|, |file|);
    }
  }

  /** Requests no longer than the file are all answered in full. */
  lemma {:induction false} BridgeStreamComplete(file: seq<Byte>, lengths: seq<nat>)
    requires forall i :: 0 <= i < |lengths| ==> lengths[i] <= |file|
    ensures |BridgeStream(file, lengths).0| == Total(lengths)
  {
    if |lengths| > 0 {
      var shorter := lengths[..|lengths| - 1];
      BridgeStreamComplete(file, shorter);
      RequestServed(file, BridgeStream(file, shorter).1, lengths[|lengths| - 1]);
    }
  }

  // ----- simulated BB84 -----

  class BB84KeyGenerator {
    var config: Config
    var key: seq<Byte>
    var lastRoundResult: Option<RoundResult>
    /** The monitor registered by `set_metrics_callback`. */
    var monitor: QBERMonitor?

    ghost predicate Valid()
      reads this, monitor
    {
      monitor != null ==> monitor.Valid()
    }

    constructor (config: Config)
      ensures Valid() && this.config == config && key == [] && lastRoundResult == None && monitor == null
    {
      this.config := config;
      key, lastRoundResult, monitor := [], None, null;
    }

    method SetMetricsCallback(m: QBERMonitor)
      requires m.Valid()
      modifies this
      ensures Valid() && monitor == m
      ensures config == old(config) && key == old(key) && lastRoundResult == old(lastRoundResult)
    {
      monitor := m;
    }

    /** Runs a round, reports it, and takes its key unless it aborted. */
    method GenerateKey(keyLength: nat, draws: RoundDraws)
      requires Valid() && draws.Valid(config.numRawBits)
      modifies this, monitor
      ensures Valid() && monitor == old(monitor)
      ensures config == if keyLength != 0 then old(config).(targetKeyLengthBits := keyLength) else old(config)
      ensures lastRoundResult == Some(Round(config, draws))
      ensures var r := lastRoundResult.value;
              && (r.Aborted() <==> r.key.None?)
              && key == (if r.Aborted() then old(key) else r.key.value)
              && (monitor != null ==>
                    && monitor.trace == old(if monitor != null then monitor.trace else []) + [r]
                    && monitor.successfulRounds ==
                       old(if monitor != null then monitor.successfulRounds else 0) + if r.Aborted() then 0 else 1)
    {
      if keyLength != 0 {
        config := config.(targetKeyLengthBits := keyLength);
      }
      var result := RunRound(config, draws);
      lastRoundResult := Some(result);
      if monitor != null {
        var _ := monitor.RecordRound(result);
      }
      if result.Aborted() || result.key.None? {
        return;
      }
      key := result.key.value;
    }
  }
}
