/** Toeplitz hashing for privacy amplification (shared/bb84/utils.py). */
module Toeplitz {
  import opened Bits

  /** `np.dot(row, x)` over 0/1 vectors. */
  function Dot(row: seq<Bit>, x: seq<Bit>): nat
    requires |row| == |x|
  {
    var k := |x| - 1;
    if k < 0 then 0 else Dot(row[..k], x[..k]) + (if row[k] == 1 && x[k] == 1 then 1 else 0)
  }

  /** Output bit `i` multiplies `x` by the window of `random` that starts at `i`. */
  function HashBits(random: seq<Bit>, x: seq<Bit>, m: nat): (h: seq<Bit>)
    requires |x| + m == |random| + 1
    ensures |h| == m
  {
    seq(m, i requires 0 <= i < m => Dot(random[i..i + |x|], x) % 2)
  }

  /** `toeplitz_hash` as a function of the random vector it draws. */
  function Hash(random: seq<Bit>, x: seq<Bit>, m: int): seq<Byte>
    requires m > 0 && |x| > 0 ==> |x| + m == |random| + 1
  {
    if m <= 0 || |x| == 0 then [] else Pack(HashBits(random, x, m))
  }

  /** The places where both the input and the window of `random` from `i` on are one. */
  ghost function Common(random: seq<Bit>, x: seq<Bit>, i: nat): set<nat>
    requires i + |x| <= |random|
  {
    set j: nat | j < |x| && random[i + j] == 1 && x[j] == 1
  }

  lemma {:induction false} DotCounts(random: seq<Bit>, x: seq<Bit>, i: nat)
    requires i + |x| <= |random|
    ensures Dot(random[i..i + |x|], x) == |Common(random, x, i)|
    decreases |x|
  {
    var k := |x| - 1;
    if k < 0 {
      assert Common(random, x, i) == {};
    } else {
      DotCounts(random, x[..k], i);
      assert random[i..i + |x|][..k] == random[i..i + k];
      CommonLast(random, x, i);
    }
  }

  lemma CommonLast(random: seq<Bit>, x: seq<Bit>, i: nat)
    requires i + |x| <= |random| && |x| > 0
    ensures var k := |x| - 1;
            |Common(random, x, i)| == |Common(random, x[..k], i)| + if random[i + k] == 1 && x[k] == 1 then 1 else 0
  {
    var k := |x| - 1;
    var c := Common(random, x[..k], i);
    assert k !in c;
    assert Common(random, x, i) == if random[i + k] == 1 && x[k] == 1 then c + {k} else c;
  }

  /** What the bytes of a hash hold: output bit `i` is the parity of the places where input
      and window are both one, and the bits that fill up the last byte are zero. */
  ghost predicate HoldsParities(key: seq<Byte>, random: seq<Bit>, x: seq<Bit>, m: nat)
    requires |x| + m == |random| + 1
  {
    && |Unpack(key)| < m + 8
    && m <= |Unpack(key)|
    && (forall i: nat :: i < m ==> Unpack(key)[i] == |Common(random, x, i)| % 2)
    && (forall i: nat :: m <= i < |Unpack(key)| ==> Unpack(key)[i] == 0)
  }

  lemma HashHoldsParities(random: seq<Bit>, x: seq<Bit>, m: nat)
    requires |x| > 0 && m > 0 && |x| + m == |random| + 1
    ensures HoldsParities(Hash(random, x, m), random, x, m)
  {
    UnpackPack(HashBits(random, x, m));
    forall i: nat | i < m ensures HashBits(random, x, m)[i] == |Common(random, x, i)| % 2 {
      DotCounts(random, x, i);
    }
  }

  method ToeplitzHash(bits: seq<Bit>, outputLength: int, randomBits: seq<Bit>) returns (key: seq<Byte>)
    requires outputLength > 0 && |bits| > 0 ==> |bits| + outputLength == |randomBits| + 1
    ensures key == Hash(randomBits, bits, outputLength)
    ensures |key| == if |bits| == 0 || outputLength <= 0 then 0 else (outputLength + 7) / 8
    ensures |bits| > 0 && outputLength > 0 ==> HoldsParities(key, randomBits, bits, outputLength)
  {
    var n, m := |bits|, outputLength;
    if m <= 0 || n <= 0 {
      return [];
    }
    var outputBits: seq<Bit> := [];
    for i := 0 to m
      invariant outputBits == HashBits(randomBits, bits, m)[..i]
    {
      var row := randomBits[i..i + n];
      outputBits := outputBits + [Dot(row, bits) % 2];
    }
    assert outputBits == HashBits(randomBits, bits, m);
    key := BitsToBytes(outputBits);
    HashHoldsParities(randomBits, bits, m);
  }

  // ----- linearity -----

  lemma {:induction false} DotXor(row: seq<Bit>, x: seq<Bit>, y: seq<Bit>)
    requires |row| == |x| == |y|
    ensures Dot(row, Xor(x, y)) % 2 == (Dot(row, x) + Dot(row, y)) % 2
  {
    var k := |x| - 1;
    if k >= 0 {
      DotXor(row[..k], x[..k], y[..k]);
      assert Xor(x, y)[..k] == Xor(x[..k], y[..k]);
    }
  }

  /** For a fixed vector the hash is linear over GF(2). */
  lemma HashLinear(random: seq<Bit>, x: seq<Bit>, y: seq<Bit>, m: nat)
    requires |x| == |y| && |x| + m == |random| + 1
    ensures HashBits(random, Xor(x, y), m) == Xor(HashBits(random, x, m), HashBits(random, y, m))
  {
    forall i | 0 <= i < m
      ensures HashBits(random, Xor(x, y), m)[i] == Xor(HashBits(random, x, m), HashBits(random, y, m))[i]
    {
      DotXor(random[i..i + |x|], x, y);
    }
  }

  // ----- counting vectors -----

  /** `s` with every member extended by the bit that `f` chooses for it. */
  ghost function Extend(s: set<seq<Bit>>, f: seq<Bit> -> Bit): set<seq<Bit>> {
    set r | r in s :: r + [f(r)]
  }

  lemma {:induction false} ExtendCard(s: set<seq<Bit>>, f: seq<Bit> -> Bit)
    ensures |Extend(s, f)| == |s|
  {
    if s != {} {
      var r :| r in s;
      var rest := s - {r};
      ExtendCard(rest, f);
      assert Extend(s, f) == Extend(rest, f) + {r + [f(r)]};
      assert r + [f(r)] !in Extend(rest, f) by {
        forall q | q in rest ensures q + [f(q)] != r + [f(r)] {
          assert (q + [f(q)])[..|q|] == q && (r + [f(r)])[..|r|] == r;
        }
      }
    }
  }

  ghost const APPEND_ZERO: seq<Bit> -> Bit := r => 0
  ghost const APPEND_ONE: seq<Bit> -> Bit := r => 1

  /** Every member of `s` extended by a zero and by a one. */
  ghost function ExtendBoth(s: set<seq<Bit>>): set<seq<Bit>> {
    Extend(s, APPEND_ZERO) + Extend(s, APPEND_ONE)
  }

  lemma ExtendBothMember(s: set<seq<Bit>>, r: seq<Bit>, b: Bit)
    ensures r + [b] in ExtendBoth(s) <==> r in s
  {
    var q := r + [b];
    assert q[..|r|] == r && q[|r|] == b;
    if r in s {
      assert q == r + [if b == 0 then APPEND_ZERO(r) else APPEND_ONE(r)];
    }
    if q in ExtendBoth(s) {
      var p :| p in s && (q == p + [APPEND_ZERO(p)] || q == p + [APPEND_ONE(p)]);
      assert |p| == |r|;
      assert p == q[..|p|];
    }
  }

  ghost predicate AllOfLength(s: set<seq<Bit>>, n: nat) {
    forall r: seq<Bit> :: r in s <==> |r| == n
  }

  lemma {:induction false} VectorsExist(n: nat) returns (s: set<seq<Bit>>)
    ensures AllOfLength(s, n)
  {
    if n == 0 {
      s := {[]};
    } else {
      var shorter := VectorsExist(n - 1);
      s := ExtendBoth(shorter);
      forall r ensures r in s <==> |r| == n {
        if |r| > 0 {
          assert r == r[..|r| - 1] + [r[|r| - 1]];
          ExtendBothMember(shorter, r[..|r| - 1], r[|r| - 1]);
        }
      }
    }
  }

  /** All bit strings of length `n`. */
  ghost function Vectors(n: nat): (s: set<seq<Bit>>)
    ensures AllOfLength(s, n)
  {
    assert exists s :: AllOfLength(s, n) by {
      var s := VectorsExist(n);
    }
    var s :| AllOfLength(s, n);
    s
  }

  lemma ExtendBothCard(s: set<seq<Bit>>)
    ensures |ExtendBoth(s)| == 2 * |s|
  {
    var s0, s1 := Extend(s, APPEND_ZERO), Extend(s, APPEND_ONE);
    ExtendCard(s, APPEND_ZERO);
    ExtendCard(s, APPEND_ONE);
    assert forall q | q in s0 :: |q| > 0 && q[|q| - 1] == 0;
    assert forall q | q in s1 :: |q| > 0 && q[|q| - 1] == 1;
    assert s0 !! s1;
  }

  // ----- universality -----

  /** `k` is the last position where `x` has a one. */
  ghost predicate LastOne(x: seq<Bit>, k: nat) {
    k < |x| && x[k] == 1 && forall j :: k < j < |x| ==> x[j] == 0
  }

  lemma {:induction false} LastOneExists(x: seq<Bit>) returns (k: nat)
    requires 1 in x
    ensures LastOne(x, k)
  {
    if x[|x| - 1] == 1 {
      k := |x| - 1;
    } else {
      assert x == x[..|x| - 1] + [x[|x| - 1]];
      k := LastOneExists(x[..|x| - 1]);
      assert forall j :: k < j < |x| - 1 ==> x[j] == x[..|x| - 1][j];
    }
  }

  /** Beyond the last one of `x` the row does not matter. */
  lemma {:induction false} DotUpToLastOne(row: seq<Bit>, x: seq<Bit>, k: nat)
    requires |row| == |x| && LastOne(x, k)
    ensures Dot(row, x) == Dot(row[..k + 1], x[..k + 1])
  {
    if k + 1 < |x| {
      var t := |x| - 1;
      DotUpToLastOne(row[..t], x[..t], k);
      assert row[..t][..k + 1] == row[..k + 1] && x[..t][..k + 1] == x[..k + 1];
    } else {
      assert row[..k + 1] == row && x[..k + 1] == x;
    }
  }

  /** Bit `i` of the hash, read off the prefix of the row that reaches position `k`. */
  ghost function Row(r: seq<Bit>, x: seq<Bit>, k: nat, i: nat): nat
    requires k < |x| && i + k < |r|
  {
    Dot(r[i..i + k + 1], x[..k + 1]) % 2
  }

  /** Every output bit of `target` that the prefix `r` already decides is right. */
  ghost predicate Decided(r: seq<Bit>, x: seq<Bit>, k: nat, target: seq<Bit>)
    requires k < |x|
  {
    forall i: nat | i < |target| && i + k < |r| :: Row(r, x, k, i) == target[i]
  }

  ghost function Solutions(len: nat, x: seq<Bit>, k: nat, target: seq<Bit>): set<seq<Bit>>
    requires k < |x|
  {
    DecidedIn(Vectors(len), x, k, target)
  }

  ghost function DecidedIn(all: set<seq<Bit>>, x: seq<Bit>, k: nat, target: seq<Bit>): set<seq<Bit>>
    requires k < |x|
  {
    set r | r in all && Decided(r, x, k, target)
  }

  lemma VectorsCard(n: nat)
    ensures |Vectors(n)| == Pow2(n)
  {
    assert LastOne([1], 0);
    SolutionsCard(n, [1], 0, []);
    assert Solutions(n, [1], 0, []) == Vectors(n);
  }

  ghost predicate HashesTo(r: seq<Bit>, x: seq<Bit>, target: seq<Bit>) {
    |x| + |target| == |r| + 1 && HashBits(r, x, |target|) == target
  }

  ghost function HashingTo(all: set<seq<Bit>>, x: seq<Bit>, target: seq<Bit>): set<seq<Bit>> {
    set r | r in all && HashesTo(r, x, target)
  }

  /** The one value that the next bit of `r` must take when it closes row `|r| - k`. */
  ghost function Forced(r: seq<Bit>, x: seq<Bit>, k: nat, target: seq<Bit>): Bit
    requires k < |x|
  {
    var i := |r| - k;
    if 0 <= i < |target| then (Dot(r[i..], x[..k]) + target[i]) % 2 else 0
  }

  /** Appending `b` keeps `r` a partial solution exactly if `b` is free or as forced. */
  lemma DecidedStep(r: seq<Bit>, b: Bit, x: seq<Bit>, k: nat, target: seq<Bit>)
    requires LastOne(x, k)
    ensures Decided(r + [b], x, k, target) <==>
            Decided(r, x, k, target) && (k <= |r| < k + |target| ==> b == Forced(r, x, k, target))
  {
    var q, i := r + [b], |r| - k;
    forall j: nat | j + k < |r| ensures Row(q, x, k, j) == Row(r, x, k, j) {
      RowPrefix(r, b, x, k, j);
    }
    if 0 <= i {
      RowLast(r, b, x, k);
    }
  }

  lemma RowPrefix(r: seq<Bit>, b: Bit, x: seq<Bit>, k: nat, j: nat)
    requires k < |x| && j + k < |r|
    ensures Row(r + [b], x, k, j) == Row(r, x, k, j)
  {
    assert (r + [b])[j..j + k + 1] == r[j..j + k + 1];
  }

  lemma RowLast(r: seq<Bit>, b: Bit, x: seq<Bit>, k: nat)
    requires LastOne(x, k) && k <= |r|
    ensures Row(r + [b], x, k, |r| - k) == (Dot(r[|r| - k..], x[..k]) + b) % 2
  {
    var q, i := r + [b], |r| - k;
    assert q[i..i + k + 1] == r[i..] + [b];
    assert q[i..i + k + 1][..k] == r[i..] && x[..k + 1][..k] == x[..k];
  }

  lemma SolutionsMember(len: nat, x: seq<Bit>, k: nat, target: seq<Bit>, r: seq<Bit>, b: Bit)
    requires LastOne(x, k) && |r| == len
    ensures r + [b] in Solutions(len + 1, x, k, target) <==>
            r in Solutions(len, x, k, target) && (k <= len < k + |target| ==> b == Forced(r, x, k, target))
  {
    DecidedStep(r, b, x, k, target);
  }

  /** A free position doubles the solutions, a forced one leaves their number. */
  lemma SolutionsStep(len: nat, x: seq<Bit>, k: nat, target: seq<Bit>)
    requires LastOne(x, k)
    ensures |Solutions(len + 1, x, k, target)| ==
            if k <= len < k + |target| then |Solutions(len, x, k, target)| else 2 * |Solutions(len, x, k, target)|
  {
    var s, s' := Solutions(len, x, k, target), Solutions(len + 1, x, k, target);
    if k <= len < k + |target| {
      var f := r => Forced(r, x, k, target);
      forall r, b: Bit | |r| == len ensures r + [b] in s' <==> r in s && b == f(r) {
        SolutionsMember(len, x, k, target, r, b);
      }
      SolutionsForced(s, s', len, f);
    } else {
      forall r, b: Bit | |r| == len ensures r + [b] in s' <==> r in s {
        SolutionsMember(len, x, k, target, r, b);
      }
      SolutionsFree(s, s', len);
    }
  }

  lemma SolutionsForced(s: set<seq<Bit>>, s': set<seq<Bit>>, len: nat, f: seq<Bit> -> Bit)
    requires forall q | q in s' :: |q| == len + 1
    requires forall r | r in s :: |r| == len
    requires forall r, b: Bit | |r| == len :: r + [b] in s' <==> r in s && b == f(r)
    ensures |s'| == |s|
  {
    forall q | q in s' ensures q in Extend(s, f) {
      assert q == q[..len] + [q[len]];
      assert q[..len] + [q[len]] in s';
    }
    forall q | q in Extend(s, f) ensures q in s' {
      var r :| r in s && q == r + [f(r)];
    }
    assert s' == Extend(s, f);
    ExtendCard(s, f);
  }

  lemma SolutionsFree(s: set<seq<Bit>>, s': set<seq<Bit>>, len: nat)
    requires forall q | q in s' :: |q| == len + 1
    requires forall r | r in s :: |r| == len
    requires forall r, b: Bit | |r| == len :: r + [b] in s' <==> r in s
    ensures |s'| == 2 * |s|
  {
    forall q | q in s' ensures q in ExtendBoth(s) {
      assert q == q[..len] + [q[len]];
      ExtendBothMember(s, q[..len], q[len]);
    }
    forall q | q in ExtendBoth(s) ensures q in s' {
      var r :| r in s && (q == r + [APPEND_ZERO(r)] || q == r + [APPEND_ONE(r)]);
    }
    assert s' == ExtendBoth(s);
    ExtendBothCard(s);
  }

  /** How many of the first `len` positions lie outside `k .. k + m`. */
  ghost function FreePositions(len: nat, k: nat, m: nat): nat {
    if len <= k then len else if len <= k + m then k else len - m
  }

  /** Positions `k .. k + m` are forced, all the others are free. */
  lemma {:induction false} SolutionsCard(len: nat, x: seq<Bit>, k: nat, target: seq<Bit>)
    requires LastOne(x, k)
    ensures |Solutions(len, x, k, target)| ==
            Pow2(FreePositions(len, k, |target|))
  {
    if len == 0 {
      assert Solutions(0, x, k, target) == {[]};
    } else {
      SolutionsCard(len - 1, x, k, target);
      SolutionsStep(len - 1, x, k, target);
    }
  }

  /** The defining vectors that hash `x` to `target`. */
  ghost function Preimages(x: seq<Bit>, target: seq<Bit>): set<seq<Bit>>
    requires |x| + |target| >= 1
  {
    HashingTo(Vectors(|x| + |target| - 1), x, target)
  }

  /** A full vector hashes `x` to `target` exactly if every decided row is right. */
  lemma HashIffDecided(r: seq<Bit>, x: seq<Bit>, k: nat, target: seq<Bit>)
    requires LastOne(x, k) && |x| + |target| == |r| + 1
    ensures HashesTo(r, x, target) <==> Decided(r, x, k, target)
  {
    var n, m := |x|, |target|;
    var h := HashBits(r, x, m);
    forall i: nat | i < m
      ensures h[i] == Row(r, x, k, i)
    {
      DotUpToLastOne(r[i..i + n], x, k);
      assert r[i..i + n][..k + 1] == r[i..i + k + 1];
    }
    if Decided(r, x, k, target) {
      assert h == target;
    }
  }

  /** A nonzero input of length n reaches every output of length m under exactly
      2^(n-1) vectors, whatever the output: it is hashed uniformly. */
  lemma HashUniform(x: seq<Bit>, target: seq<Bit>)
    requires 1 in x
    ensures |Preimages(x, target)| == Pow2(|x| - 1)
  {
    var k := LastOneExists(x);
    var len := |x| + |target| - 1;
    SolutionsCard(len, x, k, target);
    assert FreePositions(len, k, |target|) == |x| - 1;
    HashingToIsDecidedIn(len, x, k, target);
  }

  lemma HashingToIsDecidedIn(len: nat, x: seq<Bit>, k: nat, target: seq<Bit>)
    requires LastOne(x, k) && len + 1 == |x| + |target|
    ensures HashingTo(Vectors(len), x, target) == DecidedIn(Vectors(len), x, k, target)
  {
    forall r | r in Vectors(len)
      ensures HashesTo(r, x, target) <==> Decided(r, x, k, target)
    {
      HashIffDecided(r, x, k, target);
    }
  }

  lemma XorZeroIffEqual(x: seq<Bit>, y: seq<Bit>)
    requires |x| == |y|
    ensures Xor(x, y) == Zeros(|x|) <==> x == y
    ensures x != y ==> 1 in Xor(x, y)
  {
  }

  ghost predicate Collide(r: seq<Bit>, x: seq<Bit>, y: seq<Bit>, m: nat)
    requires |x| == |y|
  {
    |x| + m == |r| + 1 && Hash(r, x, m) == Hash(r, y, m)
  }

  ghost function Colliding(all: set<seq<Bit>>, x: seq<Bit>, y: seq<Bit>, m: nat): set<seq<Bit>>
    requires |x| == |y|
  {
    set r | r in all && Collide(r, x, y, m)
  }

  /** The vectors under which `x` and `y` get the same bytes. */
  ghost function Collisions(x: seq<Bit>, y: seq<Bit>, m: nat): set<seq<Bit>>
    requires |x| == |y| && |x| + m >= 1
  {
    Colliding(Vectors(|x| + m - 1), x, y, m)
  }

  lemma CollisionIff(r: seq<Bit>, x: seq<Bit>, y: seq<Bit>, m: nat)
    requires |x| == |y| > 0 && m > 0 && |r| + 1 == |x| + m
    ensures Collide(r, x, y, m) <==> HashesTo(r, Xor(x, y), Zeros(m))
  {
    HashLinear(r, x, y, m);
    XorZeroIffEqual(HashBits(r, x, m), HashBits(r, y, m));
    if Hash(r, x, m) == Hash(r, y, m) {
      PackInjective(HashBits(r, x, m), HashBits(r, y, m));
    }
  }

  lemma CollisionsArePreimages(x: seq<Bit>, y: seq<Bit>, m: nat)
    requires |x| == |y| > 0 && m > 0
    ensures Collisions(x, y, m) == Preimages(Xor(x, y), Zeros(m))
  {
    forall r | |r| + 1 == |x| + m
      ensures Collide(r, x, y, m) <==> HashesTo(r, Xor(x, y), Zeros(m))
    {
      CollisionIff(r, x, y, m);
    }
  }

  /** Exactly 2-universal: of all 2^(n+m-1) vectors a fraction of 2^-m makes two
      different inputs collide. */
  lemma TwoUniversal(x: seq<Bit>, y: seq<Bit>, m: nat)
    requires |x| == |y| && x != y && m > 0
    ensures |Collisions(x, y, m)| == Pow2(|x| - 1)
    ensures |Vectors(|x| + m - 1)| == Pow2(m) * |Collisions(x, y, m)|
  {
    CollisionsArePreimages(x, y, m);
    XorZeroIffEqual(x, y);
    HashUniform(Xor(x, y), Zeros(m));
    VectorsCard(|x| + m - 1);
    Pow2Add(m, |x| - 1);
  }

  lemma {:induction false} Pow2Add(a: nat, b: nat)
    ensures Pow2(a + b) == Pow2(a) * Pow2(b)
  {
    if a > 0 {
      Pow2Add(a - 1, b);
    }
  }
}
