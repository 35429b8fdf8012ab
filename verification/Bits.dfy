/** Bit strings and their packing into bytes (shared/bb84/utils.py). */
module Bits {
  type Bit = b: int | 0 <= b <= 1
  type Byte = b: int | 0 <= b < 256

  function Pow2(n: nat): (p: nat)
    ensures p >= 1
  {
    if n == 0 then 1 else 2 * Pow2(n - 1)
  }

  function Zeros(n: nat): (z: seq<Bit>)
    ensures |z| == n
  {
    seq(n, _ => 0)
  }

  /** Bitwise exclusive or. */
  function Xor(x: seq<Bit>, y: seq<Bit>): (z: seq<Bit>)
    requires |x| == |y|
    ensures |z| == |x|
    ensures forall i :: 0 <= i < |x| ==> (z[i] == 1 <==> x[i] != y[i])
  {
    seq(|x|, i requires 0 <= i < |x| => if x[i] == y[i] then 0 else 1)
  }

  /** The number of zero bits appended to reach a whole number of bytes. */
  function Padding(n: nat): (p: nat)
    ensures p < 8 && (n + p) % 8 == 0
  {
    (8 - n % 8) % 8
  }

  function Padded(bits: seq<Bit>): (p: seq<Bit>)
    ensures |p| % 8 == 0 && |bits| <= |p| < |bits| + 8
  {
    bits + Zeros(Padding(|bits|))
  }

  /** The number written by `bits`, most significant bit first. */
  function Value(bits: seq<Bit>): nat {
    if |bits| == 0 then 0 else 2 * Value(bits[..|bits| - 1]) + bits[|bits| - 1]
  }

  lemma {:induction false} ValueBound(bits: seq<Bit>)
    ensures Value(bits) < Pow2(|bits|)
  {
    if |bits| > 0 {
      ValueBound(bits[..|bits| - 1]);
    }
  }

  function ByteOf(chunk: seq<Bit>): Byte
    requires |chunk| == 8
  {
    ValueBound(chunk);
    assert Pow2(8) == 256 by { assert Pow2(4) == 16; }
    Value(chunk)
  }

  /** `bits_to_bytes` of a string that already is a whole number of bytes. */
  function PackChunks(bits: seq<Bit>): (r: seq<Byte>)
    requires |bits| % 8 == 0
    ensures |r| == |bits| / 8
  {
    if |bits| == 0 then [] else [ByteOf(bits[..8])] + PackChunks(bits[8..])
  }

  /** `bits_to_bytes`: zero padding on the right, then eight bits a byte. */
  function Pack(bits: seq<Bit>): (r: seq<Byte>)
    ensures |r| == (|bits| + 7) / 8
  {
    PackChunks(Padded(bits))
  }

  /** The low `n` bits of `v`, most significant first. */
  function BitsOf(v: nat, n: nat): (r: seq<Bit>)
    ensures |r| == n
  {
    if n == 0 then [] else BitsOf(v / 2, n - 1) + [v % 2]
  }

  /** Bit `j` is `(v >> (n - 1 - j)) & 1`. */
  lemma {:induction false} BitsOfIsShiftAndMask(v: nat, n: nat, j: nat)
    requires j < n
    ensures BitsOf(v, n)[j] == v / Pow2(n - 1 - j) % 2
  {
    if j < n - 1 {
      BitsOfIsShiftAndMask(v / 2, n - 1, j);
      HalveThenDivide(v, Pow2(n - 2 - j));
    }
  }

  lemma MultiplyMonotone(a: int, b: int, p: int)
    requires a <= b && 0 <= p
    ensures a * p <= b * p
  {
  }

  lemma HalveThenDivide(v: nat, p: nat)
    requires p > 0
    ensures v / 2 / p == v / (2 * p)
  {
    var q := v / (2 * p);
    var r := v % (2 * p);
    assert v / 2 == q * p + r / 2 by { assert v == 2 * (q * p) + r; }
    assert 0 <= r / 2 < p;
    assert (q * p + r / 2) / p == q by {
      var d := (q * p + r / 2) / p;
      if d < q { MultiplyMonotone(d + 1, q, p); }
      if d > q { MultiplyMonotone(q + 1, d, p); }
    }
  }

  /** `bytes_to_bits`. */
  function Unpack(data: seq<Byte>): (r: seq<Bit>)
    ensures |r| == 8 * |data|
  {
    if |data| == 0 then [] else BitsOf(data[0], 8) + Unpack(data[1..])
  }

  /** Bit `i` of the unpacked string is bit `i % 8`, from the left, of byte `i / 8`. */
  lemma {:induction false} UnpackAt(data: seq<Byte>, i: nat)
    requires i < 8 * |data|
    ensures Unpack(data)[i] == data[i / 8] / Pow2(7 - i % 8) % 2
  {
    if i < 8 {
      BitsOfIsShiftAndMask(data[0], 8, i);
    } else {
      UnpackAt(data[1..], i - 8);
      assert i / 8 == (i - 8) / 8 + 1 && i % 8 == (i - 8) % 8;
      assert Unpack(data)[i] == Unpack(data[1..])[i - 8];
    }
  }

  lemma {:induction false} BitsOfValue(s: seq<Bit>)
    ensures BitsOf(Value(s), |s|) == s
  {
    if |s| > 0 {
      BitsOfValue(s[..|s| - 1]);
      assert s == s[..|s| - 1] + [s[|s| - 1]];
    }
  }

  lemma {:induction false} ValueOfBitsOf(v: nat, n: nat)
    requires v < Pow2(n)
    ensures Value(BitsOf(v, n)) == v
  {
    if n > 0 {
      ValueOfBitsOf(v / 2, n - 1);
      assert BitsOf(v, n)[..n - 1] == BitsOf(v / 2, n - 1);
    }
  }

  /** Unpacking what was packed gives the bits back, plus the padding. */
  lemma {:induction false} UnpackPackChunks(bits: seq<Bit>)
    requires |bits| % 8 == 0
    ensures Unpack(PackChunks(bits)) == bits
  {
    if |bits| > 0 {
      BitsOfValue(bits[..8]);
      UnpackPackChunks(bits[8..]);
      assert PackChunks(bits)[1..] == PackChunks(bits[8..]);
      assert bits == bits[..8] + bits[8..];
    }
  }

  lemma UnpackPack(bits: seq<Bit>)
    ensures Unpack(Pack(bits)) == bits + Zeros(Padding(|bits|))
    ensures |Unpack(Pack(bits))| < |bits| + 8
  {
    UnpackPackChunks(Padded(bits));
  }

  lemma {:induction false} PackUnpack(data: seq<Byte>)
    ensures Pack(Unpack(data)) == data
  {
    assert Padded(Unpack(data)) == Unpack(data);
    if |data| > 0 {
      PackUnpack(data[1..]);
      assert Padded(Unpack(data[1..])) == Unpack(data[1..]);
      assert Unpack(data)[..8] == BitsOf(data[0], 8);
      assert Unpack(data)[8..] == Unpack(data[1..]);
      assert Pow2(8) == 256 by { assert Pow2(4) == 16; }
      ValueOfBitsOf(data[0], 8);
    }
  }

  /** Strings of one length pack to the same bytes only when they are equal. */
  lemma PackInjective(x: seq<Bit>, y: seq<Bit>)
    requires |x| == |y|
    requires Pack(x) == Pack(y)
    ensures x == y
  {
    UnpackPack(x);
    UnpackPack(y);
    assert x == (x + Zeros(Padding(|x|)))[..|x|];
    assert y == (y + Zeros(Padding(|y|)))[..|x|];
  }

  lemma {:induction false} PackChunksSnoc(bits: seq<Bit>, chunk: seq<Bit>)
    requires |bits| % 8 == 0 && |chunk| == 8
    ensures PackChunks(bits + chunk) == PackChunks(bits) + [ByteOf(chunk)]
  {
    var all := bits + chunk;
    if |bits| == 0 {
      assert all == chunk && all[..8] == chunk && all[8..] == [];
    } else {
      PackChunksSnoc(bits[8..], chunk);
      assert all[..8] == bits[..8] && all[8..] == bits[8..] + chunk;
    }
  }

  lemma ValueExtend(bits: seq<Bit>, i: nat, j: nat)
    requires i + j < |bits|
    ensures Value(bits[i..i + j + 1]) == 2 * Value(bits[i..i + j]) + bits[i + j]
  {
    assert bits[i..i + j + 1][..j] == bits[i..i + j];
  }

  lemma PackChunksExtend(bits: seq<Bit>, i: nat)
    requires i % 8 == 0 && i + 8 <= |bits|
    ensures PackChunks(bits[..i + 8]) == PackChunks(bits[..i]) + [ByteOf(bits[i..i + 8])]
  {
    assert bits[..i + 8] == bits[..i] + bits[i..i + 8];
    PackChunksSnoc(bits[..i], bits[i..i + 8]);
  }

  /** `bits_to_bytes`, loop for loop: `byte << 1 | bit` is `2 * byte + bit`. */
  method BitsToBytes(bits: seq<Bit>) returns (result: seq<Byte>)
    ensures result == Pack(bits)
    ensures Unpack(result) == bits + Zeros(Padding(|bits|))
  {
    var padded := bits + Zeros((8 - |bits| % 8) % 8);
    result := [];
    var i := 0;
    while i < |padded|
      invariant 0 <= i <= |padded| && i % 8 == 0
      invariant result == PackChunks(padded[..i])
    {
      var byte: int := 0;
      for j := 0 to 8
        invariant byte == Value(padded[i..i + j])
      {
        ValueExtend(padded, i, j);
        byte := 2 * byte + padded[i + j] as int;
      }
      PackChunksExtend(padded, i);
      result := result + [byte];
      i := i + 8;
    }
    assert padded[..i] == padded;
    UnpackPack(bits);
  }
}
