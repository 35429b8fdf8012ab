/** Cascade error correction (shared/bb84/protocol.py): Bob's string is corrected in
    place, block by block, by comparing parities with Alice's. */
module Cascade {
  import opened Bits

  // ----- blocks of indices, parities and errors -----

  ghost predicate Within(block: seq<nat>, n: nat) {
    forall k :: 0 <= k < |block| ==> block[k] < n
  }

  ghost predicate AllWithin(blocks: seq<seq<nat>>, n: nat) {
    forall k :: 0 <= k < |blocks| ==> Within(blocks[k], n)
  }

  ghost predicate Distinct(block: seq<nat>) {
    forall i, j :: 0 <= i < j < |block| ==> block[i] != block[j]
  }

  /** What `rng.permutation(n)` draws. */
  ghost predicate IsPermutation(p: seq<nat>, n: nat) {
    |p| == n && Within(p, n) && Distinct(p)
  }

  function Identity(n: nat): (p: seq<nat>)
    ensures IsPermutation(p, n)
    ensures forall i :: 0 <= i < n ==> p[i] == i
  {
    seq(n, i => i)
  }

  function SumAt(s: seq<Bit>, block: seq<nat>): nat
    requires Within(block, |s|)
  {
    if |block| == 0 then 0 else s[block[0]] + SumAt(s, block[1..])
  }

  function Parity(s: seq<Bit>, block: seq<nat>): nat
    requires Within(block, |s|)
  {
    SumAt(s, block) % 2
  }

  /** How many indices of `block` point at a bit where the two strings differ. */
  function Errors(a: seq<Bit>, c: seq<Bit>, block: seq<nat>): nat
    requires |a| == |c| && Within(block, |a|)
  {
    if |block| == 0 then 0
    else (if a[block[0]] != c[block[0]] then 1 else 0) + Errors(a, c, block[1..])
  }

  /** The positions where the two strings differ. */
  function Wrong(a: seq<Bit>, c: seq<Bit>): set<nat>
    requires |a| == |c|
  {
    set i: nat | i < |a| && a[i] != c[i]
  }

  lemma {:induction false} ErrorsSplit(a: seq<Bit>, c: seq<Bit>, left: seq<nat>, right: seq<nat>)
    requires |a| == |c| && Within(left, |a|) && Within(right, |a|)
    ensures Within(left + right, |a|)
    ensures Errors(a, c, left + right) == Errors(a, c, left) + Errors(a, c, right)
  {
    if |left| == 0 {
      assert left + right == right;
    } else {
      assert (left + right)[1..] == left[1..] + right;
      ErrorsSplit(a, c, left[1..], right);
    }
  }

  /** Two parities differ exactly when the block holds an odd number of errors. */
  lemma {:induction false} ParityMismatch(a: seq<Bit>, c: seq<Bit>, block: seq<nat>)
    requires |a| == |c| && Within(block, |a|)
    ensures Parity(a, block) != Parity(c, block) <==> Errors(a, c, block) % 2 == 1
  {
    if |block| > 0 {
      ParityMismatch(a, c, block[1..]);
    }
  }

  lemma {:induction false} ErrorsLocal(a: seq<Bit>, c: seq<Bit>, d: seq<Bit>, block: seq<nat>)
    requires |a| == |c| == |d| && Within(block, |a|)
    requires forall i :: i in block ==> c[i] == d[i]
    ensures Errors(a, c, block) == Errors(a, d, block)
  {
    if |block| > 0 {
      ErrorsLocal(a, c, d, block[1..]);
    }
  }

  lemma {:induction false} ErrorsAfterFlip(a: seq<Bit>, c: seq<Bit>, block: seq<nat>, p: nat)
    requires |a| == |c| && Within(block, |a|) && Distinct(block)
    requires p in block && c[p] != a[p]
    ensures Errors(a, c[p := a[p]], block) == Errors(a, c, block) - 1
  {
    var rest := block[1..];
    if block[0] == p {
      ErrorsLocal(a, c, c[p := a[p]], rest);
    } else {
      ErrorsAfterFlip(a, c, rest, p);
    }
  }

  lemma HeadOrTail(block: seq<nat>)
    requires |block| > 0
    ensures forall i :: i in block <==> i == block[0] || i in block[1..]
  {
    assert block == [block[0]] + block[1..];
  }

  ghost function Elements(block: seq<nat>): set<nat> {
    set i | i in block
  }

  ghost function Range(n: nat): (r: set<nat>)
    ensures forall i: nat :: i in r <==> i < n
  {
    if n == 0 then {} else Range(n - 1) + {n - 1}
  }

  /** On distinct indices `Errors` counts wrong positions. */
  lemma {:induction false} ErrorsAreWrong(a: seq<Bit>, c: seq<Bit>, block: seq<nat>)
    requires |a| == |c| && Within(block, |a|) && Distinct(block)
    ensures Errors(a, c, block) == |Elements(block) * Wrong(a, c)|
  {
    var w := Elements(block) * Wrong(a, c);
    if |block| == 0 {
      assert w == {};
    } else {
      var v := Elements(block[1..]) * Wrong(a, c);
      ErrorsAreWrong(a, c, block[1..]);
      HeadOrTail(block);
      assert block[0] !in block[1..];
      assert w == if block[0] in Wrong(a, c) then v + {block[0]} else v;
    }
  }

  lemma {:induction false} DistinctCard(block: seq<nat>)
    requires Distinct(block)
    ensures |Elements(block)| == |block|
  {
    if |block| > 0 {
      DistinctCard(block[1..]);
      HeadOrTail(block);
      assert block[0] !in block[1..];
      assert Elements(block) == Elements(block[1..]) + {block[0]};
    }
  }

  lemma {:induction false} RangeCard(n: nat)
    ensures |Range(n)| == n
  {
    if n > 0 {
      RangeCard(n - 1);
    }
  }

  /** A permutation meets every position. */
  lemma PermutationCovers(p: seq<nat>, n: nat)
    requires IsPermutation(p, n)
    ensures Elements(p) == Range(n)
  {
    DistinctCard(p);
    RangeCard(n);
    assert Elements(p) <= Range(n);
    assert Range(n) == Elements(p) + (Range(n) - Elements(p));
  }

  lemma ErrorsOverPermutation(a: seq<Bit>, c: seq<Bit>, p: seq<nat>)
    requires |a| == |c| && IsPermutation(p, |a|)
    ensures Errors(a, c, p) == |Wrong(a, c)|
  {
    PermutationCovers(p, |a|);
    ErrorsAreWrong(a, c, p);
    assert Range(|a|) * Wrong(a, c) == Wrong(a, c);
  }

  lemma WrongLast(a: seq<Bit>, c: seq<Bit>)
    requires |a| == |c| > 0
    ensures var k := |a| - 1;
            |Wrong(a, c)| == |Wrong(a[..k], c[..k])| + (if a[k] != c[k] then 1 else 0)
  {
    var k := |a| - 1;
    var w := Wrong(a[..k], c[..k]);
    assert k !in w;
    assert Wrong(a, c) == if a[k] != c[k] then w + {k} else w;
  }

  /** Errors before a position and errors after it are all the errors. */
  lemma {:induction false} WrongSplit(a: seq<Bit>, c: seq<Bit>, k: nat)
    requires |a| == |c| && k <= |a|
    ensures |Wrong(a, c)| == |Wrong(a[..k], c[..k])| + |Wrong(a[k..], c[k..])|
  {
    var t := |a| - 1;
    if k == |a| {
      assert a[..k] == a && c[..k] == c && Wrong(a[k..], c[k..]) == {};
    } else {
      WrongSplit(a[..t], c[..t], k);
      assert a[..t][..k] == a[..k] && c[..t][..k] == c[..k];
      assert a[..t][k..] == a[k..][..t - k] && c[..t][k..] == c[k..][..t - k];
      WrongLast(a, c);
      WrongLast(a[k..], c[k..]);
    }
  }

  lemma NothingWrong(a: seq<Bit>, c: seq<Bit>)
    requires |a| == |c|
    ensures |Wrong(a, c)| == 0 <==> a == c
  {
    if |Wrong(a, c)| == 0 {
      forall i: nat | i < |a| ensures a[i] == c[i] {
        assert i !in Wrong(a, c);
      }
    } else {
      var i :| i in Wrong(a, c);
    }
  }

  // ----- binary search -----

  /** `_binary_search_correct` as a function of Bob's string. */
  function BinarySearch(a: seq<Bit>, c: seq<Bit>, block: seq<nat>): (r: seq<Bit>)
    requires |a| == |c| && Within(block, |a|)
    ensures |r| == |c|
    decreases |block|
  {
    if |block| == 0 then c
    else if |block| == 1 then c[block[0] := a[block[0]]]
    else
      var mid := |block| / 2;
      if Parity(a, block[..mid]) != Parity(c, block[..mid])
      then BinarySearch(a, c, block[..mid])
      else BinarySearch(a, c, block[mid..])
  }

  /** On a mismatched block the search flips exactly one bit, which lies in the block
      and was wrong. */
  lemma {:induction false} BinarySearchFlipsOneError(a: seq<Bit>, c: seq<Bit>, block: seq<nat>) returns (p: nat)
    requires |a| == |c| && Within(block, |a|)
    requires Parity(a, block) != Parity(c, block)
    ensures p in block && c[p] != a[p]
    ensures BinarySearch(a, c, block) == c[p := a[p]]
    decreases |block|
  {
    ParityMismatch(a, c, block);
    if |block| == 1 {
      p := block[0];
    } else {
      var mid := |block| / 2;
      var left, right := block[..mid], block[mid..];
      assert block == left + right;
      ErrorsSplit(a, c, left, right);
      ParityMismatch(a, c, left);
      ParityMismatch(a, c, right);
      if Parity(a, left) != Parity(c, left) {
        p := BinarySearchFlipsOneError(a, c, left);
      } else {
        p := BinarySearchFlipsOneError(a, c, right);
      }
    }
  }

  /** The recursion in place. `levels` counts the halvings: at most log2 of the block
      size, rounded up. */
  method BinarySearchCorrect(alice: seq<Bit>, corrected: array<Bit>, block: seq<nat>) returns (ghost levels: nat)
    requires |alice| == corrected.Length && Within(block, |alice|)
    modifies corrected
    ensures corrected[..] == BinarySearch(alice, old(corrected[..]), block)
    ensures Parity(alice, block) != Parity(old(corrected[..]), block) ==>
              exists p :: p in block && old(corrected[p]) != alice[p] &&
                          corrected[..] == old(corrected[..])[p := alice[p]]
    ensures forall d: nat :: |block| <= Pow2(d) ==> levels <= d
    decreases |block|
  {
    levels := 0;
    ghost var before := corrected[..];
    if |block| <= 1 {
      if |block| == 1 {
        var idx := block[0];
        corrected[idx] := alice[idx];
      }
    } else {
      var mid := |block| / 2;
      var left, right := block[..mid], block[mid..];
      if Parity(alice, left) != Parity(corrected[..], left) {
        levels := BinarySearchCorrect(alice, corrected, left);
      } else {
        levels := BinarySearchCorrect(alice, corrected, right);
      }
      levels := levels + 1;
      forall d: nat | |block| <= Pow2(d) ensures levels <= d {
        assert d > 0 && |right| <= Pow2(d - 1) && |left| <= Pow2(d - 1);
      }
    }
    if Parity(alice, block) != Parity(before, block) {
      var p := BinarySearchFlipsOneError(alice, before, block);
    }
  }

  // ----- one pass -----

  function CorrectBlock(a: seq<Bit>, c: seq<Bit>, block: seq<nat>): (r: seq<Bit>)
    requires |a| == |c| && Within(block, |a|)
    ensures |r| == |c|
  {
    if Parity(a, block) != Parity(c, block) then BinarySearch(a, c, block) else c
  }

  /** `idx` cut into blocks of `size`, the last one possibly shorter. */
  function Chunks(idx: seq<nat>, size: nat): (blocks: seq<seq<nat>>)
    requires size > 0
  {
    if |idx| == 0 then []
    else if |idx| <= size then [idx]
    else [idx[..size]] + Chunks(idx[size..], size)
  }

  function Flatten(blocks: seq<seq<nat>>): seq<nat> {
    if |blocks| == 0 then [] else blocks[0] + Flatten(blocks[1..])
  }

  lemma {:induction false} FlattenChunks(idx: seq<nat>, size: nat)
    requires size > 0
    ensures Flatten(Chunks(idx, size)) == idx
  {
    if |idx| == 0 {
    } else if |idx| <= size {
      assert Flatten([idx]) == idx + Flatten([]);
    } else {
      FlattenChunks(idx[size..], size);
      assert Chunks(idx, size)[1..] == Chunks(idx[size..], size);
      assert idx == idx[..size] + idx[size..];
    }
  }

  lemma {:induction false} ChunksWithin(idx: seq<nat>, size: nat, n: nat)
    requires size > 0 && Within(idx, n)
    ensures AllWithin(Chunks(idx, size), n)
  {
    if |idx| > size {
      ChunksWithin(idx[size..], size, n);
    }
  }

  lemma ChunksStep(idx: seq<nat>, start: nat, end: nat, size: nat)
    requires size > 0 && start < |idx|
    requires end == if start + size < |idx| then start + size else |idx|
    ensures Chunks(idx[start..], size) == [idx[start..end]] + Chunks(idx[end..], size)
  {
    var rest := idx[start..];
    if start + size < |idx| {
      assert rest[..size] == idx[start..end] && rest[size..] == idx[end..];
    } else {
      assert rest == idx[start..end] && idx[end..] == [];
    }
  }

  /** Every block in turn, each against the string the previous ones left. */
  function Pass(a: seq<Bit>, c: seq<Bit>, blocks: seq<seq<nat>>): (r: seq<Bit>)
    requires |a| == |c| && AllWithin(blocks, |a|)
    ensures |r| == |c|
    decreases |blocks|
  {
    if |blocks| == 0 then c else Pass(a, CorrectBlock(a, c, blocks[0]), blocks[1..])
  }

  /** How many blocks hold an odd number of errors. */
  function OddBlocks(a: seq<Bit>, c: seq<Bit>, blocks: seq<seq<nat>>): nat
    requires |a| == |c| && AllWithin(blocks, |a|)
  {
    if |blocks| == 0 then 0
    else Errors(a, c, blocks[0]) % 2 + OddBlocks(a, c, blocks[1..])
  }

  ghost predicate ParitiesAgree(a: seq<Bit>, c: seq<Bit>, blocks: seq<seq<nat>>)
    requires |a| == |c| && AllWithin(blocks, |a|)
  {
    forall k :: 0 <= k < |blocks| ==> Parity(a, blocks[k]) == Parity(c, blocks[k])
  }

  ghost predicate AtMostOneEach(a: seq<Bit>, c: seq<Bit>, blocks: seq<seq<nat>>)
    requires |a| == |c| && AllWithin(blocks, |a|)
  {
    forall k :: 0 <= k < |blocks| ==> Errors(a, c, blocks[k]) <= 1
  }

  /** From `c` to `r` every block with an odd number of errors lost exactly one. */
  ghost predicate Evened(a: seq<Bit>, c: seq<Bit>, r: seq<Bit>, blocks: seq<seq<nat>>)
    requires |a| == |c| == |r| && AllWithin(blocks, |a|)
  {
    forall k :: 0 <= k < |blocks| ==>
      Errors(a, r, blocks[k]) == Errors(a, c, blocks[k]) - Errors(a, c, blocks[k]) % 2
  }

  lemma {:induction false} BlockInFlatten(blocks: seq<seq<nat>>, k: nat)
    requires k < |blocks|
    ensures forall i :: i in blocks[k] ==> i in Flatten(blocks)
  {
    if k > 0 {
      BlockInFlatten(blocks[1..], k - 1);
    }
  }

  lemma DistinctParts(left: seq<nat>, right: seq<nat>)
    requires Distinct(left + right)
    ensures Distinct(left) && Distinct(right)
    ensures forall i :: i in left ==> i !in right
  {
    var all := left + right;
    forall i, j | 0 <= i < |left| && 0 <= j < |right| ensures left[i] != right[j] {
      assert all[i] == left[i] && all[|left| + j] == right[j];
    }
    forall i, j | 0 <= i < j < |right| ensures right[i] != right[j] {
      assert all[|left| + i] == right[i] && all[|left| + j] == right[j];
    }
    forall i, j | 0 <= i < j < |left| ensures left[i] != left[j] {
      assert all[i] == left[i] && all[j] == left[j];
    }
  }

  /** One block: its error count loses its last bit, everything else stays. */
  lemma CorrectBlockEffect(a: seq<Bit>, c: seq<Bit>, block: seq<nat>)
    requires |a| == |c| && Within(block, |a|) && Distinct(block)
    ensures var r := CorrectBlock(a, c, block);
            && Errors(a, r, block) == Errors(a, c, block) - Errors(a, c, block) % 2
            && (forall i: nat :: i < |c| && i !in block ==> r[i] == c[i])
            && (forall i: nat :: i < |c| && c[i] == a[i] ==> r[i] == a[i])
  {
    ParityMismatch(a, c, block);
    if Parity(a, block) != Parity(c, block) {
      var p := BinarySearchFlipsOneError(a, c, block);
      ErrorsAfterFlip(a, c, block, p);
    }
  }

  /** What one pass does, over blocks that do not overlap: each block's error count
      loses its last bit, right bits stay right, and bits outside the blocks stay. */
  lemma {:induction false} PassEffect(a: seq<Bit>, c: seq<Bit>, blocks: seq<seq<nat>>)
    requires |a| == |c| && AllWithin(blocks, |a|) && Distinct(Flatten(blocks))
    ensures Evened(a, c, Pass(a, c, blocks), blocks)
    ensures forall i: nat :: i < |c| && i !in Flatten(blocks) ==> Pass(a, c, blocks)[i] == c[i]
    ensures forall i: nat :: i < |c| && c[i] == a[i] ==> Pass(a, c, blocks)[i] == a[i]
    decreases |blocks|
  {
    if |blocks| > 0 {
      var head, rest := blocks[0], blocks[1..];
      assert Flatten(blocks) == head + Flatten(rest);
      DistinctParts(head, Flatten(rest));
      CorrectBlockEffect(a, c, head);
      var c1 := CorrectBlock(a, c, head);
      PassEffect(a, c1, rest);
      var r := Pass(a, c1, rest);
      ErrorsLocal(a, c1, r, head);
      forall k | 0 <= k < |rest| ensures Errors(a, c1, rest[k]) == Errors(a, c, rest[k]) {
        BlockInFlatten(rest, k);
        ErrorsLocal(a, c1, c, rest[k]);
      }
      forall k | 0 <= k < |blocks|
        ensures Errors(a, r, blocks[k]) == Errors(a, c, blocks[k]) - Errors(a, c, blocks[k]) % 2
      {
        assert k > 0 ==> blocks[k] == rest[k - 1];
      }
    }
  }

  /** A pass lowers the total number of errors by the number of odd blocks. */
  lemma {:induction false} PassTotal(a: seq<Bit>, c: seq<Bit>, r: seq<Bit>, blocks: seq<seq<nat>>)
    requires |a| == |c| == |r| && AllWithin(blocks, |a|) && Evened(a, c, r, blocks)
    ensures Within(Flatten(blocks), |a|)
    ensures Errors(a, r, Flatten(blocks)) + OddBlocks(a, c, blocks) == Errors(a, c, Flatten(blocks))
  {
    if |blocks| > 0 {
      var head, rest := blocks[0], blocks[1..];
      PassTotal(a, c, r, rest);
      ErrorsSplit(a, r, head, Flatten(rest));
      ErrorsSplit(a, c, head, Flatten(rest));
    }
  }

  /** Blocks with even error counts add up to an even total. */
  lemma {:induction false} EvenTotal(a: seq<Bit>, r: seq<Bit>, blocks: seq<seq<nat>>)
    requires |a| == |r| && AllWithin(blocks, |a|) && ParitiesAgree(a, r, blocks)
    ensures Within(Flatten(blocks), |a|)
    ensures Errors(a, r, Flatten(blocks)) % 2 == 0
  {
    if |blocks| > 0 {
      var head, rest := blocks[0], blocks[1..];
      EvenTotal(a, r, rest);
      ParityMismatch(a, r, head);
      ErrorsSplit(a, r, head, Flatten(rest));
    }
  }

  /** The total is zero exactly if every block's count is. */
  lemma {:induction false} ZeroTotal(a: seq<Bit>, r: seq<Bit>, blocks: seq<seq<nat>>)
    requires |a| == |r| && AllWithin(blocks, |a|)
    ensures Within(Flatten(blocks), |a|)
    ensures Errors(a, r, Flatten(blocks)) == 0 <==>
            forall k :: 0 <= k < |blocks| ==> Errors(a, r, blocks[k]) == 0
  {
    if |blocks| > 0 {
      var head, rest := blocks[0], blocks[1..];
      ZeroTotal(a, r, rest);
      ErrorsSplit(a, r, head, Flatten(rest));
      assert forall k :: 0 < k < |blocks| ==> blocks[k] == rest[k - 1];
      assert forall k :: 0 <= k < |rest| ==> rest[k] == blocks[k + 1];
    }
  }

  lemma EvenedParities(a: seq<Bit>, c: seq<Bit>, r: seq<Bit>, blocks: seq<seq<nat>>)
    requires |a| == |c| == |r| && AllWithin(blocks, |a|) && Evened(a, c, r, blocks)
    ensures ParitiesAgree(a, r, blocks)
  {
    forall k | 0 <= k < |blocks|
      ensures Parity(a, blocks[k]) == Parity(r, blocks[k])
    {
      var e := Errors(a, c, blocks[k]);
      assert (e - e % 2) % 2 == 0;
      ParityMismatch(a, r, blocks[k]);
    }
  }

  lemma EvenedToZero(a: seq<Bit>, c: seq<Bit>, r: seq<Bit>, blocks: seq<seq<nat>>)
    requires |a| == |c| == |r| && AllWithin(blocks, |a|) && Evened(a, c, r, blocks)
    ensures (forall k :: 0 <= k < |blocks| ==> Errors(a, r, blocks[k]) == 0) <==> AtMostOneEach(a, c, blocks)
  {
  }

  /** The pass contract. With the whole index range cut into blocks: afterwards every
      block agrees in parity, the distance to Alice has dropped by exactly the number of
      blocks that were odd at the start, right bits stayed right, the residual distance
      is even, and it is zero exactly if no block held more than one error. */
  lemma PassContract(a: seq<Bit>, c: seq<Bit>, blocks: seq<seq<nat>>)
    requires |a| == |c| && AllWithin(blocks, |a|) && IsPermutation(Flatten(blocks), |a|)
    ensures var r := Pass(a, c, blocks);
            && ParitiesAgree(a, r, blocks)
            && |Wrong(a, r)| + OddBlocks(a, c, blocks) == |Wrong(a, c)|
            && Wrong(a, r) <= Wrong(a, c)
            && |Wrong(a, r)| % 2 == 0
            && (r == a <==> AtMostOneEach(a, c, blocks))
  {
    PassEffect(a, c, blocks);
    var r := Pass(a, c, blocks);
    ErrorsOverPermutation(a, c, Flatten(blocks));
    ErrorsOverPermutation(a, r, Flatten(blocks));
    PassTotal(a, c, r, blocks);
    EvenedParities(a, c, r, blocks);
    EvenTotal(a, r, blocks);
    assert r == a <==> AtMostOneEach(a, c, blocks) by {
      NothingWrong(a, r);
      ZeroTotal(a, r, blocks);
      EvenedToZero(a, c, r, blocks);
    }
  }

  // ----- the four passes -----

  const PASSES: nat := 4

  /** `max(2, int(0.73 / qber))`. */
  function InitialBlockSize(qber: real): (s: nat)
    requires qber > 0.0
    ensures s >= 2
  {
    var q := (0.73 / qber).Floor;
    if q > 2 then q else 2
  }

  function BlockSize(initial: nat, pass: nat, n: nat): (s: nat)
    requires initial > 0 && n > 0
    ensures 0 < s <= n
  {
    var s := initial * Pow2(pass);
    assert s >= initial by { MultiplyMonotone(1, Pow2(pass), initial); }
    if s < n then s else n
  }

  ghost predicate ValidPermutations(perms: seq<seq<nat>>, n: nat) {
    |perms| == PASSES - 1 && forall k :: 0 <= k < |perms| ==> IsPermutation(perms[k], n)
  }

  /** The order of a pass: the identity first, then the drawn permutations. */
  function PassOrder(pass: nat, n: nat, perms: seq<seq<nat>>): (order: seq<nat>)
    requires pass < PASSES && ValidPermutations(perms, n)
    ensures IsPermutation(order, n)
  {
    if pass == 0 then Identity(n) else perms[pass - 1]
  }

  function PassBlocks(pass: nat, n: nat, initial: nat, perms: seq<seq<nat>>): (blocks: seq<seq<nat>>)
    requires pass < PASSES && n > 0 && initial > 0 && ValidPermutations(perms, n)
    ensures Flatten(blocks) == PassOrder(pass, n, perms)
    ensures IsPermutation(Flatten(blocks), n) && AllWithin(blocks, n)
  {
    var order, size := PassOrder(pass, n, perms), BlockSize(initial, pass, n);
    FlattenChunks(order, size);
    ChunksWithin(order, size, n);
    Chunks(order, size)
  }

  /** The string after the first `count` passes. */
  function AfterPasses(a: seq<Bit>, c: seq<Bit>, initial: nat, perms: seq<seq<nat>>, count: nat): (r: seq<Bit>)
    requires |a| == |c| > 0 && initial > 0 && ValidPermutations(perms, |a|) && count <= PASSES
    ensures |r| == |c|
  {
    if count == 0 then c
    else Pass(a, AfterPasses(a, c, initial, perms, count - 1), PassBlocks(count - 1, |a|, initial, perms))
  }

  /** One more pass, in terms of its order and block size. */
  lemma NextPass(a: seq<Bit>, c: seq<Bit>, initial: nat, perms: seq<seq<nat>>, pass: nat)
    requires |a| == |c| > 0 && initial > 0 && ValidPermutations(perms, |a|) && pass < PASSES
    ensures var blocks := Chunks(PassOrder(pass, |a|, perms), BlockSize(initial, pass, |a|));
            && AllWithin(blocks, |a|)
            && AfterPasses(a, c, initial, perms, pass + 1) == Pass(a, AfterPasses(a, c, initial, perms, pass), blocks)
  {
    ChunksWithin(PassOrder(pass, |a|, perms), BlockSize(initial, pass, |a|), |a|);
  }

  /** `_error_correct_cascade`. */
  function Reconcile(a: seq<Bit>, b: seq<Bit>, qber: real, perms: seq<seq<nat>>): (r: seq<Bit>)
    requires |a| == |b| && ValidPermutations(perms, |a|)
    ensures |r| == |b|
  {
    if |a| == 0 then []
    else if qber <= 0.0 then b
    else AfterPasses(a, b, InitialBlockSize(qber), perms, PASSES)
  }

  // ----- what the four passes achieve -----

  /** A zero estimate leaves Bob's string alone. */
  lemma NoEstimateNoCorrection(a: seq<Bit>, b: seq<Bit>, qber: real, perms: seq<seq<nat>>)
    requires |a| == |b| && ValidPermutations(perms, |a|) && qber <= 0.0
    ensures Reconcile(a, b, qber, perms) == b
  {
  }

  /** `d` is wrong only where `c` is. */
  ghost predicate Closer(a: seq<Bit>, d: seq<Bit>, c: seq<Bit>)
    requires |a| == |d| == |c|
  {
    Wrong(a, d) <= Wrong(a, c)
  }

  lemma PassOnlyCorrects(a: seq<Bit>, c: seq<Bit>, blocks: seq<seq<nat>>)
    requires |a| == |c| && AllWithin(blocks, |a|) && IsPermutation(Flatten(blocks), |a|)
    ensures Wrong(a, Pass(a, c, blocks)) <= Wrong(a, c)
  {
    PassContract(a, c, blocks);
  }

  lemma NextPassOnlyCorrects(a: seq<Bit>, c: seq<Bit>, initial: nat, perms: seq<seq<nat>>, count: nat)
    requires |a| == |c| > 0 && initial > 0 && ValidPermutations(perms, |a|) && count < PASSES
    ensures Closer(a, AfterPasses(a, c, initial, perms, count + 1), AfterPasses(a, c, initial, perms, count))
  {
    PassOnlyCorrects(a, AfterPasses(a, c, initial, perms, count), PassBlocks(count, |a|, initial, perms));
  }

  /** Passes never make a right bit wrong, so a right string stays as it is. */
  lemma PassesOnlyCorrect(a: seq<Bit>, c: seq<Bit>, initial: nat, perms: seq<seq<nat>>)
    requires |a| == |c| > 0 && initial > 0 && ValidPermutations(perms, |a|)
    ensures Closer(a, AfterPasses(a, c, initial, perms, PASSES), AfterPasses(a, c, initial, perms, 1))
    ensures Closer(a, AfterPasses(a, c, initial, perms, PASSES), c)
  {
    NextPassOnlyCorrects(a, c, initial, perms, 0);
    NextPassOnlyCorrects(a, c, initial, perms, 1);
    NextPassOnlyCorrects(a, c, initial, perms, 2);
    NextPassOnlyCorrects(a, c, initial, perms, 3);
  }

  /** Whenever the estimate is positive, an even number of errors is left, all of them
      errors of Bob's original, and the blocks of the last pass all agree in parity. */
  lemma CascadeResidual(a: seq<Bit>, b: seq<Bit>, qber: real, perms: seq<seq<nat>>)
    requires |a| == |b| > 0 && ValidPermutations(perms, |a|) && qber > 0.0
    ensures var r := Reconcile(a, b, qber, perms);
            && Wrong(a, r) <= Wrong(a, b)
            && |Wrong(a, r)| % 2 == 0
            && ParitiesAgree(a, r, PassBlocks(PASSES - 1, |a|, InitialBlockSize(qber), perms))
  {
    var initial := InitialBlockSize(qber);
    PassesOnlyCorrect(a, b, initial, perms);
    PassContract(a, AfterPasses(a, b, initial, perms, PASSES - 1), PassBlocks(PASSES - 1, |a|, initial, perms));
  }

  /** The exact success condition: Alice's string comes out if and only if the last
      pass meets no block with two or more errors. */
  lemma CascadeSucceedsIff(a: seq<Bit>, b: seq<Bit>, qber: real, perms: seq<seq<nat>>)
    requires |a| == |b| > 0 && ValidPermutations(perms, |a|) && qber > 0.0
    ensures Reconcile(a, b, qber, perms) == a <==>
            AtMostOneEach(a, AfterPasses(a, b, InitialBlockSize(qber), perms, PASSES - 1),
                          PassBlocks(PASSES - 1, |a|, InitialBlockSize(qber), perms))
  {
    var initial := InitialBlockSize(qber);
    var before, blocks := AfterPasses(a, b, initial, perms, PASSES - 1), PassBlocks(PASSES - 1, |a|, initial, perms);
    assert Reconcile(a, b, qber, perms) == Pass(a, before, blocks);
    PassSucceedsIff(a, before, blocks);
  }

  lemma PassSucceedsIff(a: seq<Bit>, c: seq<Bit>, blocks: seq<seq<nat>>)
    requires |a| == |c| && AllWithin(blocks, |a|) && IsPermutation(Flatten(blocks), |a|)
    ensures Pass(a, c, blocks) == a <==> AtMostOneEach(a, c, blocks)
  {
    PassContract(a, c, blocks);
  }

  /** If no block of the unshuffled first pass holds two errors, that pass alone gives
      Alice's string and the later ones leave it alone, whatever permutations are drawn. */
  lemma FirstPassSuffices(a: seq<Bit>, b: seq<Bit>, qber: real, perms: seq<seq<nat>>)
    requires |a| == |b| > 0 && ValidPermutations(perms, |a|) && qber > 0.0
    ensures AfterPasses(a, b, InitialBlockSize(qber), perms, 1) == a <==>
            AtMostOneEach(a, b, PassBlocks(0, |a|, InitialBlockSize(qber), perms))
    ensures AtMostOneEach(a, b, PassBlocks(0, |a|, InitialBlockSize(qber), perms)) ==>
            Reconcile(a, b, qber, perms) == a
  {
    var initial := InitialBlockSize(qber);
    assert AfterPasses(a, b, initial, perms, 0) == b;
    PassContract(a, b, PassBlocks(0, |a|, initial, perms));
    PassesOnlyCorrect(a, b, initial, perms);
    NothingWrong(a, AfterPasses(a, b, initial, perms, 1));
    NothingWrong(a, AfterPasses(a, b, initial, perms, PASSES));
  }

  // ----- two errors -----

  /** No block holds both positions. */
  predicate Separates(blocks: seq<seq<nat>>, p: nat, q: nat) {
    forall k :: 0 <= k < |blocks| ==> !(p in blocks[k] && q in blocks[k])
  }

  lemma {:induction false} BlockDistinct(blocks: seq<seq<nat>>, k: nat)
    requires Distinct(Flatten(blocks)) && k < |blocks|
    ensures Distinct(blocks[k])
  {
    assert Flatten(blocks) == blocks[0] + Flatten(blocks[1..]);
    DistinctParts(blocks[0], Flatten(blocks[1..]));
    if k > 0 {
      BlockDistinct(blocks[1..], k - 1);
    }
  }

  lemma TwoErrorsInBlock(a: seq<Bit>, c: seq<Bit>, block: seq<nat>, p: nat, q: nat)
    requires |a| == |c| && Within(block, |a|) && Distinct(block) && p != q && Wrong(a, c) == {p, q}
    ensures Errors(a, c, block) <= 1 <==> !(p in block && q in block)
  {
    ErrorsAreWrong(a, c, block);
    var w := Elements(block) * Wrong(a, c);
    assert w == (if p in block then {p} else {}) + (if q in block then {q} else {});
  }

  /** A pass that separates the only two errors corrects both; another changes nothing. */
  lemma TwoErrorsPass(a: seq<Bit>, c: seq<Bit>, blocks: seq<seq<nat>>, p: nat, q: nat)
    requires |a| == |c| && AllWithin(blocks, |a|) && IsPermutation(Flatten(blocks), |a|)
    requires p != q && Wrong(a, c) == {p, q}
    ensures Pass(a, c, blocks) == a <==> Separates(blocks, p, q)
    ensures Pass(a, c, blocks) != a ==> Wrong(a, Pass(a, c, blocks)) == {p, q}
  {
    forall k | 0 <= k < |blocks|
      ensures Errors(a, c, blocks[k]) <= 1 <==> !(p in blocks[k] && q in blocks[k])
    {
      BlockDistinct(blocks, k);
      TwoErrorsInBlock(a, c, blocks[k], p, q);
    }
    var r := Pass(a, c, blocks);
    PassContract(a, c, blocks);
    NothingWrong(a, r);
    if r != a {
      EvenSubset(Wrong(a, r), p, q);
    }
  }

  lemma EvenSubset(s: set<nat>, p: nat, q: nat)
    requires s <= {p, q} && |s| % 2 == 0 && |s| != 0
    ensures s == {p, q}
  {
    if p !in s {
      SubsetCard(s, {q});
    } else if q !in s {
      SubsetCard(s, {p});
    }
  }

  /** One of the first `count` passes separates the positions. */
  ghost predicate SeparatedWithin(n: nat, initial: nat, perms: seq<seq<nat>>, p: nat, q: nat, count: nat)
    requires n > 0 && initial > 0 && ValidPermutations(perms, n) && count <= PASSES
  {
    exists k: nat :: k < count && Separates(PassBlocks(k, n, initial, perms), p, q)
  }

  lemma SeparatedStep(n: nat, initial: nat, perms: seq<seq<nat>>, p: nat, q: nat, count: nat)
    requires n > 0 && initial > 0 && ValidPermutations(perms, n) && count < PASSES
    ensures SeparatedWithin(n, initial, perms, p, q, count + 1) <==>
            SeparatedWithin(n, initial, perms, p, q, count) || Separates(PassBlocks(count, n, initial, perms), p, q)
  {
  }

  /** Both errors are gone, or both are there. */
  ghost predicate BothOrNone(a: seq<Bit>, r: seq<Bit>, p: nat, q: nat, gone: bool)
    requires |a| == |r|
  {
    if gone then r == a else Wrong(a, r) == {p, q}
  }

  lemma BothOrNonePass(a: seq<Bit>, c: seq<Bit>, blocks: seq<seq<nat>>, p: nat, q: nat, gone: bool)
    requires |a| == |c| && AllWithin(blocks, |a|) && IsPermutation(Flatten(blocks), |a|) && p != q
    requires BothOrNone(a, c, p, q, gone)
    ensures BothOrNone(a, Pass(a, c, blocks), p, q, gone || Separates(blocks, p, q))
  {
    if gone {
      PassOnlyCorrects(a, c, blocks);
      NothingWrong(a, a);
      NothingWrong(a, Pass(a, c, blocks));
    } else {
      TwoErrorsPass(a, c, blocks, p, q);
    }
  }

  /** The fate of the two errors is settled by the separations so far. */
  ghost predicate SettledAfter(a: seq<Bit>, c: seq<Bit>, initial: nat, perms: seq<seq<nat>>, p: nat, q: nat, count: nat)
    requires |a| == |c| > 0 && initial > 0 && ValidPermutations(perms, |a|) && count <= PASSES
  {
    BothOrNone(a, AfterPasses(a, c, initial, perms, count), p, q, SeparatedWithin(|a|, initial, perms, p, q, count))
  }

  lemma TwoErrorsStep(a: seq<Bit>, c: seq<Bit>, initial: nat, perms: seq<seq<nat>>, p: nat, q: nat, count: nat)
    requires |a| == |c| > 0 && initial > 0 && ValidPermutations(perms, |a|) && 0 < count <= PASSES && p != q
    requires SettledAfter(a, c, initial, perms, p, q, count - 1)
    ensures SettledAfter(a, c, initial, perms, p, q, count)
  {
    var k := count - 1;
    var gone := SeparatedWithin(|a|, initial, perms, p, q, k);
    BothOrNonePass(a, AfterPasses(a, c, initial, perms, k), PassBlocks(k, |a|, initial, perms), p, q, gone);
    SeparatedStep(|a|, initial, perms, p, q, k);
  }

  lemma NotYetSeparated(a: seq<Bit>, c: seq<Bit>, initial: nat, perms: seq<seq<nat>>, p: nat, q: nat)
    requires |a| == |c| > 0 && initial > 0 && ValidPermutations(perms, |a|) && Wrong(a, c) == {p, q}
    ensures SettledAfter(a, c, initial, perms, p, q, 0)
  {
  }

  lemma TwoErrorsPasses(a: seq<Bit>, c: seq<Bit>, initial: nat, perms: seq<seq<nat>>, p: nat, q: nat)
    requires |a| == |c| > 0 && initial > 0 && ValidPermutations(perms, |a|)
    requires p != q && Wrong(a, c) == {p, q}
    ensures SettledAfter(a, c, initial, perms, p, q, PASSES)
  {
    NotYetSeparated(a, c, initial, perms, p, q);
    TwoErrorsStep(a, c, initial, perms, p, q, 1);
    TwoErrorsStep(a, c, initial, perms, p, q, 2);
    TwoErrorsStep(a, c, initial, perms, p, q, 3);
    TwoErrorsStep(a, c, initial, perms, p, q, 4);
  }

  /** Alice's string comes out if and only if some pass puts the two positions into
      different blocks. */
  lemma TwoErrorsSeparated(a: seq<Bit>, b: seq<Bit>, qber: real, perms: seq<seq<nat>>, p: nat, q: nat)
    requires |a| == |b| > 0 && ValidPermutations(perms, |a|) && qber > 0.0
    requires p != q && Wrong(a, b) == {p, q}
    ensures Reconcile(a, b, qber, perms) == a <==>
            SeparatedWithin(|a|, InitialBlockSize(qber), perms, p, q, PASSES)
  {
    TwoErrorsPasses(a, b, InitialBlockSize(qber), perms, p, q);
    NothingWrong(a, Reconcile(a, b, qber, perms));
  }

  /** A single error is always found. */
  lemma SingleErrorCorrected(a: seq<Bit>, b: seq<Bit>, qber: real, perms: seq<seq<nat>>)
    requires |a| == |b| && ValidPermutations(perms, |a|) && qber > 0.0
    requires |Wrong(a, b)| <= 1
    ensures Reconcile(a, b, qber, perms) == a
  {
    if |a| > 0 {
      CascadeResidual(a, b, qber, perms);
      var r := Reconcile(a, b, qber, perms);
      SubsetCard(Wrong(a, r), Wrong(a, b));
      NothingWrong(a, r);
    }
  }

  lemma SubsetCard(s: set<nat>, t: set<nat>)
    requires s <= t
    ensures |s| <= |t|
  {
    assert t == s + (t - s);
  }

  /** The largest even number up to `w`. */
  function EvenPart(w: nat): (e: nat)
    ensures e % 2 == 0 && e <= w < e + 2
  {
    if w % 2 == 0 then w else w - 1
  }

  /** A string no longer than the first block size is one block in every pass: then at
      most one error is ever removed, and success means at most one error to begin with. */
  lemma SingleBlockLimit(a: seq<Bit>, b: seq<Bit>, qber: real, perms: seq<seq<nat>>)
    requires |a| == |b| > 0 && ValidPermutations(perms, |a|) && qber > 0.0
    requires |a| <= InitialBlockSize(qber)
    ensures |Wrong(a, Reconcile(a, b, qber, perms))| == EvenPart(|Wrong(a, b)|)
    ensures Reconcile(a, b, qber, perms) == a <==> |Wrong(a, b)| <= 1
  {
    SingleBlockPasses(a, b, InitialBlockSize(qber), perms, PASSES);
    NothingWrong(a, Reconcile(a, b, qber, perms));
  }

  lemma {:induction false} SingleBlockPasses(a: seq<Bit>, c: seq<Bit>, initial: nat, perms: seq<seq<nat>>, count: nat)
    requires |a| == |c| > 0 && initial >= |a| && ValidPermutations(perms, |a|) && 0 < count <= PASSES
    ensures |Wrong(a, AfterPasses(a, c, initial, perms, count))| == EvenPart(|Wrong(a, c)|)
  {
    var before := AfterPasses(a, c, initial, perms, count - 1);
    OneBlockCovers(count - 1, |a|, initial, perms);
    OneBlockPass(a, before, PassOrder(count - 1, |a|, perms));
    if count > 1 {
      SingleBlockPasses(a, c, initial, perms, count - 1);
    }
  }

  lemma OneBlockCovers(pass: nat, n: nat, initial: nat, perms: seq<seq<nat>>)
    requires pass < PASSES && initial >= n > 0 && ValidPermutations(perms, n)
    ensures PassBlocks(pass, n, initial, perms) == [PassOrder(pass, n, perms)]
  {
  }

  lemma OneBlockPass(a: seq<Bit>, c: seq<Bit>, order: seq<nat>)
    requires |a| == |c| && IsPermutation(order, |a|)
    ensures |Wrong(a, Pass(a, c, [order]))| == EvenPart(|Wrong(a, c)|)
  {
    assert Flatten([order]) == order + Flatten([]);
    PassContract(a, c, [order]);
    ErrorsOverPermutation(a, c, order);
    assert OddBlocks(a, c, [order]) == Errors(a, c, order) % 2 + OddBlocks(a, c, []);
  }

  // ----- the loops -----

  method ErrorCorrectCascade(alice: seq<Bit>, bob: seq<Bit>, qber: real, perms: seq<seq<nat>>)
    returns (corrected: array<Bit>)
    requires |alice| == |bob| && ValidPermutations(perms, |alice|)
    ensures fresh(corrected)
    ensures corrected[..] == Reconcile(alice, bob, qber, perms)
  {
    corrected := new Bit[|bob|](i requires 0 <= i < |bob| => bob[i]);
    assert corrected[..] == bob;
    var n := |bob|;
    if n == 0 || qber <= 0.0 {
      return;
    }
    var initial := InitialBlockSize(qber);
    for pass := 0 to PASSES
      invariant fresh(corrected) && corrected.Length == n
      invariant corrected[..] == AfterPasses(alice, bob, initial, perms, pass)
    {
      var order, size := PassOrder(pass, n, perms), BlockSize(initial, pass, n);
      NextPass(alice, bob, initial, perms, pass);
      CorrectInBlocks(alice, corrected, order, size);
    }
  }

  /** The inner loop: the blocks of one pass, left to right. */
  method CorrectInBlocks(alice: seq<Bit>, corrected: array<Bit>, indices: seq<nat>, blockSize: nat)
    requires |alice| == corrected.Length == |indices| && Within(indices, |alice|) && blockSize > 0
    modifies corrected
    ensures AllWithin(Chunks(indices, blockSize), |alice|)
    ensures corrected[..] == Pass(alice, old(corrected[..]), Chunks(indices, blockSize))
  {
    var n := |indices|;
    ChunksWithin(indices, blockSize, n);
    var blockStart := 0;
    assert indices[0..] == indices;
    while blockStart < n
      invariant 0 <= blockStart <= n
      invariant AllWithin(Chunks(indices[blockStart..], blockSize), n)
      invariant Pass(alice, corrected[..], Chunks(indices[blockStart..], blockSize)) ==
                Pass(alice, old(corrected[..]), Chunks(indices, blockSize))
    {
      var blockEnd := if blockStart + blockSize < n then blockStart + blockSize else n;
      var block := indices[blockStart..blockEnd];
      ChunksStep(indices, blockStart, blockEnd, blockSize);
      ChunksWithin(indices[blockEnd..], blockSize, n);
      if Parity(alice, block) != Parity(corrected[..], block) {
        var _ := BinarySearchCorrect(alice, corrected, block);
      }
      blockStart := blockEnd;
    }
  }
}
